/** Attributing test outcomes to requirements: naming packages after requirements, overriding the
    names, and classifying each requirement through a reverse index and per-package flags. */
module Attribution {
  import opened Sequences

  // ----- naming -----

  predicate IsLower(c: char) { 'a' <= c <= 'z' }

  predicate IsDigit(c: char) { '0' <= c <= '9' }

  function TrimSuffix(s: string, suffix: string): string {
    if |s| >= |suffix| && s[|s| - |suffix|..] == suffix then s[..|s| - |suffix|] else s
  }

  /** The last segment of a package path, less its `_test`. */
  function Segment(packagePath: string): string {
    var parts := Split(packagePath, '.');
    TrimSuffix(parts[|parts| - 1], "_test")
  }

  /** Lower-case family, then digits, then pieces of digits and lower-case letters, with underscores
      between them. */
  predicate FollowsConvention(segment: string) {
    var parts := Split(segment, '_');
    && |parts| >= 2
    && parts[0] != [] && (forall c <- parts[0] :: IsLower(c))
    && parts[1] != [] && (forall c <- parts[1] :: IsDigit(c))
    && forall i :: 2 <= i < |parts| ==> parts[i] != [] && forall c <- parts[i] :: IsDigit(c) || IsLower(c)
  }

  function Replace(s: string, old_: char, new_: char): (r: string)
    ensures |r| == |s|
    ensures forall i :: 0 <= i < |s| ==> r[i] == if s[i] == old_ then new_ else s[i]
  {
    seq(|s|, i requires 0 <= i < |s| => if s[i] == old_ then new_ else s[i])
  }

  /** Family, a hyphen, then the remaining pieces joined by dots; blank when the name does not fit. */
  function NormalizePackageToRequirement(packagePath: string): string {
    var segment := Segment(packagePath);
    if !FollowsConvention(segment) then ""
    else
      var family := Split(segment, '_')[0];
      family + "-" + Replace(segment[Min(|family| + 1, |segment|)..], '_', '.')
  }

  /** The segment a requirement id was made from: hyphens and dots back to underscores. */
  function Recover(id: string): string { Replace(Replace(id, '-', '_'), '.', '_') }

  /** Every character is a separator or belongs to a piece. */
  lemma {:induction false} PiecesCover(s: string, separator: char, i: nat)
    requires i < |s| && s[i] != separator
    ensures exists k :: 0 <= k < |Split(s, separator)| && s[i] in Split(s, separator)[k]
  {
    var first, parts := Split(s, separator)[0], Split(s, separator);
    FirstPiece(s, separator);
    if i < |first| {
      assert s[i] in parts[0];
    } else {
      var rest := s[|first| + 1..];
      assert i > |first| && rest[i - |first| - 1] == s[i];
      PiecesCover(rest, separator, i - |first| - 1);
      var k :| 0 <= k < |Split(rest, separator)| && s[i] in Split(rest, separator)[k];
      assert parts[k + 1] == parts[1..][k];
    }
  }

  lemma {:induction false} ConventionAlphabet(segment: string, i: nat)
    requires FollowsConvention(segment) && i < |segment|
    ensures segment[i] != '-' && segment[i] != '.'
  {
    if segment[i] != '_' {
      PiecesCover(segment, '_', i);
    }
  }

  /** Turning the id's punctuation back recovers the segment. */
  lemma {:induction false} NamingRoundTrip(packagePath: string)
    requires FollowsConvention(Segment(packagePath))
    ensures NormalizePackageToRequirement(packagePath) != ""
    ensures Recover(NormalizePackageToRequirement(packagePath)) == Segment(packagePath)
  {
    var segment, id := Segment(packagePath), NormalizePackageToRequirement(packagePath);
    var n := |Split(segment, '_')[0]|;
    FirstPiece(segment, '_');
    PunctuationBack(segment, id, n);
  }

  lemma {:induction false} PunctuationBack(segment: string, id: string, n: nat)
    requires FollowsConvention(segment) && n < |segment| && segment[n] == '_'
    requires forall i :: 0 <= i < n ==> segment[i] != '_'
    requires id == segment[..n] + "-" + Replace(segment[n + 1..], '_', '.')
    ensures Recover(id) == segment
  {
    hide FollowsConvention;
    forall i | 0 <= i < |segment|
      ensures Recover(id)[i] == segment[i]
    {
      ConventionAlphabet(segment, i);
    }
  }

  /** Two packages share a requirement id only if their stripped last segments are the same. */
  lemma {:induction false} NamingInjective(p: string, q: string)
    requires NormalizePackageToRequirement(p) == NormalizePackageToRequirement(q) != ""
    ensures Segment(p) == Segment(q)
  {
    NamingRoundTrip(p);
    NamingRoundTrip(q);
  }

  // ----- attribution -----

  datatype Detail = Detail(name: string, package: string, passed: bool)

  datatype Status = Passing | Failing | Untested

  type PackageMapping = map<string, seq<string>>

  predicate Covers(mapping: PackageMapping, package: string, req: string) {
    package in mapping && req in mapping[package]
  }

  /** Some test ran in a package that covers the requirement. */
  predicate Tested(mapping: PackageMapping, details: seq<Detail>, req: string) {
    exists d <- details :: Covers(mapping, d.package, req)
  }

  predicate Failed(mapping: PackageMapping, details: seq<Detail>, req: string) {
    exists d <- details :: Covers(mapping, d.package, req) && !d.passed
  }

  function StatusOf(mapping: PackageMapping, details: seq<Detail>, req: string): Status {
    if Failed(mapping, details, req) then Failing
    else if Tested(mapping, details, req) then Passing
    else Untested
  }

  ghost predicate Mapped(mapping: PackageMapping, req: string) { exists package <- mapping :: req in mapping[package] }

  /** Exactly the mapped requirements, each with its status. */
  ghost predicate Attributes(result: map<string, Status>, mapping: PackageMapping, details: seq<Detail>) {
    && (forall req :: req in result <==> Mapped(mapping, req))
    && (forall req <- result :: result[req] == StatusOf(mapping, details, req))
  }

  /** The naming convention alone. */
  ghost predicate IsConvention(mapping: PackageMapping, details: seq<Detail>) {
    && (forall p :: p in mapping <==> NormalizePackageToRequirement(p) != "" && Occurs(p, details))
    && (forall p <- mapping :: mapping[p] == [NormalizePackageToRequirement(p)])
  }

  ghost predicate Occurs(package: string, details: seq<Detail>) { exists d <- details :: d.package == package }

  method BuildConventionMapping(details: seq<Detail>) returns (mapping: PackageMapping)
    ensures IsConvention(mapping, details)
  {
    hide NormalizePackageToRequirement;
    mapping := map[];
    var seen: set<string> := {};
    for i := 0 to |details|
      invariant forall p :: p in seen <==> Occurs(p, details[..i])
      invariant forall p :: p in mapping <==> p in seen && NormalizePackageToRequirement(p) != ""
      invariant forall p <- mapping :: mapping[p] == [NormalizePackageToRequirement(p)]
    {
      var p := details[i].package;
      assert details[..i + 1] == details[..i] + [details[i]];
      PackagesNext(details[..i], details[i]);
      if p in seen {
        continue;
      }
      seen := seen + {p};
      var id := NormalizePackageToRequirement(p);
      if id == "" {
        continue;
      }
      mapping := mapping[p := [id]];
    }
    assert details[..|details|] == details;
  }

  lemma {:induction false} PackagesNext(details: seq<Detail>, d: Detail)
    ensures forall p :: Occurs(p, details + [d]) <==> p == d.package || Occurs(p, details)
  {
    assert forall e :: e in details + [d] <==> e in details || e == d;
  }

  /** The reverse index, filled from the mapping in any order. */
  method ReverseIndex(mapping: PackageMapping) returns (reqPackages: map<string, seq<string>>)
    ensures forall req :: req in reqPackages <==> Mapped(mapping, req)
    ensures forall req <- reqPackages :: forall p :: p in reqPackages[req] <==> Covers(mapping, p, req)
  {
    reqPackages := map[];
    var pending := mapping.Keys;
    while pending != {}
      invariant pending <= mapping.Keys
      invariant forall req, p :: Indexed(reqPackages, req, p) <==> Covers(mapping, p, req) && p !in pending
      invariant forall req <- reqPackages :: reqPackages[req] != []
      decreases pending
    {
      var pkg :| pkg in pending;
      pending := pending - {pkg};
      var reqIDs := mapping[pkg];
      for i := 0 to |reqIDs|
        invariant forall req, p :: Indexed(reqPackages, req, p) <==>
                    if p == pkg then req in reqIDs[..i] else Covers(mapping, p, req) && p !in pending
        invariant forall req <- reqPackages :: reqPackages[req] != []
      {
        var req := reqIDs[i];
        assert reqIDs[..i + 1] == reqIDs[..i] + [req];
        reqPackages := reqPackages[req := (if req in reqPackages then reqPackages[req] else []) + [pkg]];
      }
      assert reqIDs[..|reqIDs|] == reqIDs;
    }
    forall req
      ensures req in reqPackages <==> Mapped(mapping, req)
    {
      if req in reqPackages {
        assert Indexed(reqPackages, req, reqPackages[req][0]);
      } else {
        forall p | p in mapping
          ensures req !in mapping[p]
        {
          assert Indexed(reqPackages, req, p) <==> Covers(mapping, p, req);
        }
      }
    }
    forall req, p | req in reqPackages
      ensures p in reqPackages[req] <==> Covers(mapping, p, req)
    {
      assert Indexed(reqPackages, req, p) <==> Covers(mapping, p, req);
    }
  }

  ghost predicate Indexed(reqPackages: map<string, seq<string>>, req: string, p: string) {
    req in reqPackages && p in reqPackages[req]
  }

  datatype Flags = Flags(hasTests: bool, hasFail: bool)

  ghost predicate Flagged(flags: map<string, Flags>, details: seq<Detail>, p: string) {
    && (p in flags <==> exists d <- details :: d.package == p)
    && (p in flags ==> flags[p].hasTests && (flags[p].hasFail <==> exists d <- details :: d.package == p && !d.passed))
  }

  method FlagPackages(details: seq<Detail>) returns (flags: map<string, Flags>)
    ensures forall p :: Flagged(flags, details, p)
  {
    flags := map[];
    for i := 0 to |details|
      invariant forall p :: Flagged(flags, details[..i], p)
    {
      var d := details[i];
      ghost var before, next := flags, details[..i + 1];
      assert next == details[..i] + [d];
      var ps := if d.package in flags then flags[d.package] else Flags(false, false);
      ps := ps.(hasTests := true);
      if !d.passed {
        ps := ps.(hasFail := true);
      }
      flags := flags[d.package := ps];
      forall p
        ensures Flagged(flags, next, p)
      {
        assert Flagged(before, details[..i], p);
        FlagNext(details[..i], d, p);
      }
    }
    assert details[..|details|] == details;
  }

  lemma {:induction false} FlagNext(details: seq<Detail>, d: Detail, p: string)
    ensures (exists e <- details + [d] :: e.package == p) <==> d.package == p || exists e <- details :: e.package == p
    ensures (exists e <- details + [d] :: e.package == p && !e.passed) <==>
              (d.package == p && !d.passed) || exists e <- details :: e.package == p && !e.passed
  {
    assert forall e :: e in details + [d] <==> e in details || e == d;
  }

  /** The inner loop: one requirement's packages against the flags. */
  method Classify(packages: seq<string>, flags: map<string, Flags>) returns (status: Status)
    ensures var tested := exists p <- packages :: p in flags && flags[p].hasTests;
            var failed := exists p <- packages :: p in flags && flags[p].hasFail;
            status == if !tested then Untested else if failed then Failing else Passing
  {
    var hasAnyTest, hasFail := false, false;
    for i := 0 to |packages|
      invariant hasAnyTest <==> exists k :: 0 <= k < i && packages[k] in flags && flags[packages[k]].hasTests
      invariant hasFail <==> exists k :: 0 <= k < i && packages[k] in flags && flags[packages[k]].hasFail
    {
      var pkg := packages[i];
      if pkg !in flags {
        continue;
      }
      if flags[pkg].hasTests {
        hasAnyTest := true;
      }
      if flags[pkg].hasFail {
        hasFail := true;
      }
    }
    assert forall p :: p in packages <==> exists k :: 0 <= k < |packages| && packages[k] == p;
    status := if !hasAnyTest then Untested else if hasFail then Failing else Passing;
  }

  lemma {:induction false} ClassifyMeansStatus(mapping: PackageMapping, details: seq<Detail>,
                                               flags: map<string, Flags>, packages: seq<string>, req: string)
    requires forall p :: Flagged(flags, details, p)
    requires forall p :: p in packages <==> Covers(mapping, p, req)
    ensures (exists p <- packages :: p in flags && flags[p].hasTests) <==> Tested(mapping, details, req)
    ensures (exists p <- packages :: p in flags && flags[p].hasFail) <==> Failed(mapping, details, req)
    ensures Failed(mapping, details, req) ==> Tested(mapping, details, req)
  {
    if p :| p in packages && p in flags && flags[p].hasTests {
      assert Flagged(flags, details, p);
      var d :| d in details && d.package == p;
      assert Covers(mapping, d.package, req);
    }
    if p :| p in packages && p in flags && flags[p].hasFail {
      assert Flagged(flags, details, p);
      var d :| d in details && d.package == p && !d.passed;
      assert Covers(mapping, d.package, req);
    }
    if d :| d in details && Covers(mapping, d.package, req) {
      assert Flagged(flags, details, d.package) && d.package in packages;
    }
    if d :| d in details && Covers(mapping, d.package, req) && !d.passed {
      assert Flagged(flags, details, d.package) && d.package in packages;
    }
  }

  /** Requirements are classified in any order. A nil mapping or nil results attribute nothing. */
  method EnrichWithTestResults(mapping: Option<PackageMapping>, results: Option<seq<Detail>>)
    returns (result: map<string, Status>)
    ensures if mapping.Some? && results.Some? then Attributes(result, mapping.value, results.value) else result == map[]
  {
    if mapping.None? || results.None? {
      return map[];
    }
    var reqPackages := ReverseIndex(mapping.value);
    var flags := FlagPackages(results.value);
    result := map[];
    var pending := reqPackages.Keys;
    while pending != {}
      invariant pending <= reqPackages.Keys && result.Keys == reqPackages.Keys - pending
      invariant forall req <- result :: result[req] == StatusOf(mapping.value, results.value, req)
      decreases pending
    {
      var req :| req in pending;
      pending := pending - {req};
      var status := Classify(reqPackages[req], flags);
      ClassifyMeansStatus(mapping.value, results.value, flags, reqPackages[req], req);
      result := result[req := status];
    }
  }

  /** The override file, when there is one, replaces the mapping of exactly the packages it lists. */
  method AttributeTests(results: Option<seq<Detail>>, overrides: Result<PackageMapping, string>)
    returns (r: Result<map<string, Status>, string>)
    ensures results.None? || results.value == [] ==> r == Success(map[])
    ensures results.Some? && results.value != [] && overrides.Failure? ==> r == Failure(overrides.error)
    ensures results.Some? && results.value != [] && overrides.Success? ==>
              && r.Success?
              && exists convention :: IsConvention(convention, results.value)
                   && Attributes(r.value, convention + overrides.value, results.value)
  {
    hide Attributes, IsConvention;
    if results.None? || |results.value| == 0 {
      return Success(map[]);
    }
    var convention := BuildConventionMapping(results.value);
    if overrides.Failure? {
      return Failure(overrides.error);
    }
    var merged, pending := convention, overrides.value.Keys;
    while pending != {}
      invariant pending <= overrides.value.Keys
      invariant merged == convention + (overrides.value - pending)
      decreases pending
    {
      var pkg :| pkg in pending;
      pending := pending - {pkg};
      merged := merged[pkg := overrides.value[pkg]];
      assert merged == convention + (overrides.value - pending);
    }
    assert overrides.value - pending == overrides.value;
    var attributed := EnrichWithTestResults(Some(merged), results);
    return Success(attributed);
  }

  // ----- what attribution depends on -----

  /** What attribution says, from the mapping and the details alone: exactly the requirements listed for some
      package get a status; failing when a detail of such a package failed, passing when there is one and
      none failed, and untested when there is none. */
  lemma {:induction false} AttributesSay(result: map<string, Status>, mapping: PackageMapping, details: seq<Detail>)
    requires Attributes(result, mapping, details)
    ensures forall req :: req in result <==> exists p <- mapping :: req in mapping[p]
    ensures forall req <- result ::
              result[req] == Failing <==>
                (exists d <- details :: d.package in mapping && req in mapping[d.package] && !d.passed)
    ensures forall req <- result ::
              result[req] == Untested <==>
                (forall d <- details :: !(d.package in mapping && req in mapping[d.package]))
    ensures forall req <- result ::
              result[req] == Passing <==>
                && (exists d <- details :: d.package in mapping && req in mapping[d.package])
                && (forall d <- details :: d.package in mapping && req in mapping[d.package] ==> d.passed)
  {
  }

  /** Reordering details, or the requirement list of any package, changes no status. */
  lemma {:induction false} StatusIsOrderFree(mapping: PackageMapping, shuffled: PackageMapping, details: seq<Detail>,
                                             others: seq<Detail>, req: string)
    requires multiset(details) == multiset(others)
    requires mapping.Keys == shuffled.Keys && forall p <- mapping :: multiset(mapping[p]) == multiset(shuffled[p])
    ensures StatusOf(mapping, details, req) == StatusOf(shuffled, others, req)
    ensures Mapped(mapping, req) <==> Mapped(shuffled, req)
  {
    assert forall d :: d in details <==> d in multiset(details);
    assert forall d :: d in others <==> d in multiset(others);
    forall p
      ensures Covers(mapping, p, req) <==> Covers(shuffled, p, req)
    {
      if p in mapping {
        assert req in mapping[p] <==> req in multiset(mapping[p]);
        assert req in shuffled[p] <==> req in multiset(shuffled[p]);
      }
    }
    forall p | p in mapping
      ensures req in mapping[p] <==> req in shuffled[p]
    {
      assert Covers(mapping, p, req) <==> Covers(shuffled, p, req);
    }
  }

  /** With no override, every attributed requirement has been tested. */
  lemma {:induction false} ConventionIsTested(convention: PackageMapping, details: seq<Detail>, req: string)
    requires IsConvention(convention, details) && Mapped(convention, req)
    ensures StatusOf(convention, details, req) != Untested
  {
    var p :| p in convention && req in convention[p];
    var d :| d in details && d.package == p;
    assert Covers(convention, d.package, req);
  }

  /** A requirement is untested exactly when everything that covers it is an override for a package
      in which no test ran. */
  lemma {:induction false} UntestedIff(convention: PackageMapping, overrides: PackageMapping, details: seq<Detail>,
                                       req: string)
    requires IsConvention(convention, details)
    ensures StatusOf(convention + overrides, details, req) == Untested <==>
            forall p :: Covers(convention + overrides, p, req) ==>
                p in overrides && forall d <- details :: d.package != p
  {
  }
}
