/** Registry references as strings: removing embedded credentials and reading off the tag. */
module References {
  import opened Sequences

  // ----- searching -----

  /** The first position of `c`, or the length when there is none. */
  function FirstChar(s: string, c: char): (n: nat)
    ensures n <= |s| && (n < |s| ==> s[n] == c)
    ensures forall i :: 0 <= i < n ==> s[i] != c
  {
    if s == [] || s[0] == c then 0 else 1 + FirstChar(s[1..], c)
  }

  function LastChar(s: string, c: char): (n: Option<nat>)
    ensures n.Some? ==> n.value < |s| && s[n.value] == c
    ensures forall i :: (if n.Some? then n.value + 1 else 0) <= i < |s| ==> s[i] != c
  {
    if s == [] then None
    else if s[|s| - 1] == c then Some(|s| - 1)
    else LastChar(s[..|s| - 1], c)
  }

  /** "://" starts at position `j`. */
  predicate SeparatorAt(s: string, j: nat) {
    j + 2 < |s| && s[j] == ':' && s[j + 1] == '/' && s[j + 2] == '/'
  }

  function FirstSeparator(s: string): (n: Option<nat>)
    ensures n.Some? ==> SeparatorAt(s, n.value) && forall j: nat :: j < n.value ==> !SeparatorAt(s, j)
    ensures n.None? ==> forall j: nat :: !SeparatorAt(s, j)
  {
    if s == [] then None
    else if SeparatorAt(s, 0) then Some(0)
    else
      assert forall j: nat :: j > 0 ==> (SeparatorAt(s, j) <==> SeparatorAt(s[1..], j - 1));
      match FirstSeparator(s[1..])
      case None => None
      case Some(k) => Some(k + 1)
  }

  // ----- schemes -----

  predicate IsAlpha(c: char) { 'a' <= c <= 'z' || 'A' <= c <= 'Z' }

  predicate IsSchemeChar(c: char) { IsAlpha(c) || '0' <= c <= '9' || c == '+' || c == '-' || c == '.' }

  /** Scheme syntax, section 3.1 of RFC 3986. */
  predicate IsScheme(s: string) { s != [] && IsAlpha(s[0]) && forall c <- s :: IsSchemeChar(c) }

  /** The length of a recognised "scheme://" prefix; zero when there is none. */
  function SchemeLength(ref: string): (n: nat)
    ensures n <= |ref|
  {
    match FirstSeparator(ref)
    case Some(sep) => if IsScheme(ref[..sep]) then sep + 3 else 0
    case None => 0
  }

  method SplitScheme(ref: string) returns (scheme: string, rest: string)
    ensures scheme == ref[..SchemeLength(ref)] && rest == ref[SchemeLength(ref)..]
  {
    var sep := FirstSeparator(ref);
    if sep.None? || sep.value == 0 {
      return "", ref;
    }
    for i := 0 to sep.value
      invariant forall k :: 0 <= k < i ==> IsSchemeChar(ref[k])
      invariant i > 0 ==> IsAlpha(ref[0])
    {
      var c := ref[i];
      assert c in ref[..sep.value] && ref[0] == ref[..sep.value][0];
      if IsAlpha(c) {
      } else if '0' <= c <= '9' || c == '+' || c == '-' || c == '.' {
        if i == 0 {
          return "", ref;
        }
      } else {
        return "", ref;
      }
    }
    return ref[..sep.value + 3], ref[sep.value + 3..];
  }

  // ----- credentials -----

  /** How much of `rest` is userinfo: up to the last '@' before the first '/'. */
  function UserinfoLength(rest: string): (n: nat)
    ensures n <= FirstChar(rest, '/') <= |rest|
    ensures forall i :: n <= i < FirstChar(rest, '/') ==> rest[i] != '@'
    ensures n > 0 ==> rest[n - 1] == '@'
  {
    var slash := FirstChar(rest, '/');
    match LastChar(rest[..slash], '@')
    case None =>
      assert forall i :: 0 <= i < slash ==> rest[..slash][i] == rest[i];
      0
    case Some(at) =>
      assert forall i :: 0 <= i < slash ==> rest[..slash][i] == rest[i];
      at + 1
  }

  function Redact(ref: string): string {
    var n := SchemeLength(ref);
    ref[..n] + ref[n..][UserinfoLength(ref[n..])..]
  }

  method RedactCredentials(ref: string) returns (redacted: string)
    ensures redacted == Redact(ref)
  {
    var scheme, rest := SplitScheme(ref);
    var slash := FirstChar(rest, '/');
    var authority := rest;
    if slash < |rest| {
      authority := rest[..slash];
    }
    assert authority == rest[..slash];
    var at := LastChar(authority, '@');
    if at.Some? {
      rest := rest[at.value + 1..];
    }
    return scheme + rest;
  }

  /** No userinfo is left in the authority, section 3.2.1 of RFC 3986. */
  predicate Clean(ref: string) { UserinfoLength(ref[SchemeLength(ref)..]) == 0 }

  lemma {:induction false} CleanIsFixed(ref: string)
    ensures Clean(ref) <==> Redact(ref) == ref
  {
    var n := SchemeLength(ref);
    assert ref == ref[..n] + ref[n..];
    assert |Redact(ref)| == |ref| - UserinfoLength(ref[n..]);
  }

  /** The one family redaction does not settle: the text before the first "://" is no scheme but ends,
      after an '@', in something that is one, and the authority behind it holds userinfo of its own. */
  predicate Nested(ref: string) {
    match FirstSeparator(ref)
    case None => false
    case Some(sep) =>
      var prefix := ref[..sep];
      && !IsScheme(prefix) && '/' !in prefix
      && (match LastChar(prefix, '@')
          case None => false
          case Some(at) => IsScheme(prefix[at + 1..]))
      && UserinfoLength(ref[sep + 3..]) > 0
  }

  /** The scheme is kept, and so is everything from the first slash after it on. */
  lemma {:induction false} RedactKeeps(ref: string)
    ensures var n := SchemeLength(ref);
            var slash := FirstChar(ref[n..], '/');
            && Redact(ref)[..n] == ref[..n]
            && |Redact(ref)| >= n + |ref[n..][slash..]|
            && Redact(ref)[|Redact(ref)| - |ref[n..][slash..]|..] == ref[n..][slash..]
  {
    hide SchemeLength, FirstChar, UserinfoLength;
  }

  /** With a recognised scheme, the result has the same scheme and a clean authority. */
  lemma {:induction false} RedactRecognised(ref: string)
    requires SchemeLength(ref) > 0
    ensures SchemeLength(Redact(ref)) == SchemeLength(ref)
    ensures Clean(Redact(ref)) && !Nested(ref)
  {
    var n, r := SchemeLength(ref), Redact(ref);
    var rest := ref[n..];
    var k := UserinfoLength(rest);
    var sep := n - 3;
    assert r[..n] == ref[..n];
    assert SeparatorAt(r, sep) by {
      assert r[sep] == ref[sep] && r[sep + 1] == ref[sep + 1] && r[sep + 2] == ref[sep + 2];
    }
    forall j: nat | j < sep
      ensures !SeparatorAt(r, j)
    {
      assert !SeparatorAt(ref, j);
      assert r[j] == ref[j] && r[j + 1] == ref[j + 1] && r[j + 2] == ref[j + 2];
    }
    assert FirstSeparator(r) == Some(sep);
    assert r[..sep] == ref[..sep];
    assert r[n..] == rest[k..];
    CleanSuffix(rest, k);
  }

  /** Cutting all userinfo, short of the first slash, leaves none. */
  lemma {:induction false} CleanSuffix(rest: string, k: nat)
    requires UserinfoLength(rest) <= k <= FirstChar(rest, '/')
    ensures UserinfoLength(rest[k..]) == 0
  {
    hide FirstChar, UserinfoLength;
    var slash, tail := FirstChar(rest, '/'), rest[k..];
    FirstCharIs(tail, '/', slash - k);
    assert forall i :: 0 <= i < slash - k ==> tail[i] == rest[k + i];
  }

  /** The first position is the one with no occurrence before it. */
  lemma {:induction false} FirstCharIs(s: string, c: char, n: nat)
    requires n <= |s| && (n < |s| ==> s[n] == c)
    requires forall i :: 0 <= i < n ==> s[i] != c
    ensures FirstChar(s, c) == n
  {
    hide FirstChar;
  }

  lemma {:induction false} LastCharIs(s: string, c: char, n: nat)
    requires n < |s| && s[n] == c
    requires forall i :: n < i < |s| ==> s[i] != c
    ensures LastChar(s, c) == Some(n)
  {
    hide LastChar;
  }

  lemma {:induction false} NotScheme(s: string, i: nat)
    requires i < |s| && !IsSchemeChar(s[i])
    ensures !IsScheme(s)
  {
    assert s[i] in s;
  }

  /** With no "://" at all, the result has none either and is clean. */
  lemma {:induction false} RedactPlain(ref: string)
    requires FirstSeparator(ref) == None
    ensures FirstSeparator(Redact(ref)) == None
    ensures Clean(Redact(ref)) && !Nested(ref)
  {
    hide FirstSeparator, FirstChar, UserinfoLength;
    var k := UserinfoLength(ref);
    assert ref[0..] == ref;
    assert Redact(ref) == ref[k..];
    forall j: nat
      ensures !SeparatorAt(ref[k..], j)
    {
      assert !SeparatorAt(ref, k + j);
    }
    assert ref[k..][0..] == ref[k..];
    CleanSuffix(ref, k);
  }

  /** What is left when the prefix before "://" is no scheme: its own prefix is what followed the '@'. */
  lemma {:induction false} RedactUnrecognised(ref: string, sep: nat)
    requires FirstSeparator(ref) == Some(sep) && !IsScheme(ref[..sep])
    ensures var k := UserinfoLength(ref);
            && k <= sep && FirstChar(ref, '/') <= sep + 1
            && Redact(ref) == ref[k..]
            && FirstSeparator(ref[k..]) == Some(sep - k)
            && ref[k..][..sep - k] == ref[k..sep]
  {
    hide FirstSeparator, FirstChar, UserinfoLength, IsScheme;
    var k := UserinfoLength(ref);
    assert SchemeLength(ref) == 0 && ref[0..] == ref;
    assert ref[sep] == ':' && ref[sep + 1] == '/';
    assert k <= sep;
    SeparatorShifts(ref, sep, k);
  }

  lemma {:induction false} SeparatorShifts(ref: string, sep: nat, k: nat)
    requires FirstSeparator(ref) == Some(sep) && k <= sep
    ensures FirstSeparator(ref[k..]) == Some(sep - k)
  {
    hide FirstSeparator;
    var tail := ref[k..];
    forall j: nat
      ensures SeparatorAt(tail, j) <==> SeparatorAt(ref, k + j)
    {
    }
    assert SeparatorAt(tail, sep - k);
    var n := FirstSeparator(tail);
    assert n.Some?;
    assert SeparatorAt(ref, k + n.value);
  }

  lemma {:induction false} RedactUnrecognisedIff(ref: string, sep: nat)
    requires FirstSeparator(ref) == Some(sep) && !IsScheme(ref[..sep])
    ensures Clean(Redact(ref)) <==> !Nested(ref)
  {
    RedactUnrecognised(ref, sep);
    if FirstChar(ref, '/') < sep {
      SlashBefore(ref, sep);
    } else {
      SlashBehind(ref, sep);
    }
  }

  /** A slash before "://" ends the authority there; no second scheme can appear. */
  lemma {:induction false} SlashBefore(ref: string, sep: nat)
    requires FirstSeparator(ref) == Some(sep) && !IsScheme(ref[..sep]) && FirstChar(ref, '/') < sep
    ensures Clean(Redact(ref)) && !Nested(ref)
  {
    hide FirstSeparator, FirstChar, UserinfoLength, IsScheme, Redact, LastChar;
    RedactUnrecognised(ref, sep);
    var k, slash := UserinfoLength(ref), FirstChar(ref, '/');
    var r := ref[k..];
    assert ref[..sep][slash] == '/';
    assert r[..sep - k][slash - k] == '/';
    NotScheme(r[..sep - k], slash - k);
    assert SchemeLength(r) == 0 && r[0..] == r;
    CleanSuffix(ref, k);
  }

  /** Otherwise the authority is the whole prefix, and a scheme may be left behind its last '@'. */
  lemma {:induction false} SlashBehind(ref: string, sep: nat)
    requires FirstSeparator(ref) == Some(sep) && !IsScheme(ref[..sep]) && FirstChar(ref, '/') >= sep
    ensures Clean(Redact(ref)) <==> !Nested(ref)
  {
    hide FirstSeparator, FirstChar, UserinfoLength, IsScheme, Redact, LastChar;
    RedactUnrecognised(ref, sep);
    var k, prefix := UserinfoLength(ref), ref[..sep];
    var r := ref[k..];
    assert ref[sep] == ':' && FirstChar(ref, '/') == sep + 1;
    assert forall i :: 0 <= i < sep ==> prefix[i] == ref[i];
    assert '/' !in prefix && prefix[0..] == prefix;
    LastAt(prefix, k);
    assert prefix[k..] == ref[k..sep] == r[..sep - k];
    assert r[sep - k + 3..] == ref[sep + 3..];
    if !IsScheme(r[..sep - k]) {
      assert SchemeLength(r) == 0 && r[0..] == r;
      CleanSuffix(ref, k);
    } else {
      assert k > 0;
      assert SchemeLength(r) == sep - k + 3;
    }
  }

  lemma {:induction false} LastAt(prefix: string, k: nat)
    requires k <= |prefix| && (k > 0 ==> prefix[k - 1] == '@')
    requires forall i :: k <= i < |prefix| ==> prefix[i] != '@'
    ensures LastChar(prefix, '@') == if k == 0 then None else Some(k - 1)
  {
    hide LastChar;
  }

  /** Redaction leaves a clean authority, equivalently is settled after one application, exactly for
      references outside the nested family; a recognised scheme or the absence of "://" rules that
      family out. */
  lemma {:induction false} RedactSettlesIff(ref: string)
    ensures Redact(Redact(ref)) == Redact(ref) <==> !Nested(ref)
    ensures Clean(Redact(ref)) <==> !Nested(ref)
    ensures SchemeLength(ref) > 0 || FirstSeparator(ref) == None ==> !Nested(ref)
  {
    CleanIsFixed(Redact(ref));
    if SchemeLength(ref) > 0 {
      RedactRecognised(ref);
    } else {
      match FirstSeparator(ref)
      case None => RedactPlain(ref);
      case Some(sep) => RedactUnrecognisedIff(ref, sep);
    }
  }

  /** A member of the nested family, and what two rounds of redaction make of it. */
  lemma {:induction false} NestedExample()
    ensures Nested("1@a://u@h")
    ensures Redact("1@a://u@h") == "a://u@h" && Redact("a://u@h") == "a://h"
  {
    hide Redact;
    NestedFirst("1@a://u@h");
    NestedSecond("a://u@h");
  }

  lemma {:induction false} NestedFirst(ref: string)
    requires ref == "1@a://u@h"
    ensures Nested(ref) && Redact(ref) == "a://u@h"
  {
    hide FirstSeparator, FirstChar, LastChar, UserinfoLength, IsScheme;
    SeparatorIs(ref, 3);
    assert ref[..3] == "1@a" && ref[..3][2..] == "a";
    SmallSchemes();
    LastCharIs("1@a", '@', 1);
    UserinfoIs("u@h", 3, 2);
    UserinfoIs(ref, 4, 2);
    assert ref[6..] == "u@h" && ref[0..] == ref;
  }

  lemma {:induction false} NestedSecond(ref: string)
    requires ref == "a://u@h"
    ensures Redact(ref) == "a://h"
  {
    hide FirstSeparator, FirstChar, LastChar, UserinfoLength, IsScheme;
    SeparatorIs(ref, 1);
    SmallSchemes();
    UserinfoIs("u@h", 3, 2);
    assert ref[..1] == "a" && ref[4..] == "u@h" && ref[..4] == "a://" && "u@h"[2..] == "h";
  }

  lemma {:induction false} SmallSchemes()
    ensures IsScheme("a") && !IsScheme("1@a")
  {
  }

  lemma {:induction false} SeparatorIs(s: string, n: nat)
    requires SeparatorAt(s, n) && forall j: nat :: j < n ==> !SeparatorAt(s, j)
    ensures FirstSeparator(s) == Some(n)
  {
    hide FirstSeparator;
  }

  lemma {:induction false} UserinfoIs(rest: string, slash: nat, n: nat)
    requires 0 < n <= slash <= |rest| && rest[n - 1] == '@' && (slash < |rest| ==> rest[slash] == '/')
    requires forall i :: 0 <= i < slash ==> rest[i] != '/'
    requires forall i :: n <= i < slash ==> rest[i] != '@'
    ensures UserinfoLength(rest) == n
  {
    hide FirstChar, UserinfoLength;
    FirstCharIs(rest, '/', slash);
  }

  // ----- composed references -----

  /** A letter, then letters, digits, plus, minus and dot: section 3.1 of RFC 3986, character by character. */
  predicate IsSchemeText(s: string) {
    && s != "" && ('a' <= s[0] <= 'z' || 'A' <= s[0] <= 'Z')
    && forall c <- s :: 'a' <= c <= 'z' || 'A' <= c <= 'Z' || '0' <= c <= '9' || c == '+' || c == '-' || c == '.'
  }

  /** Such a text in front of "://" is recognised, all of it. */
  lemma {:induction false} SchemeOf(s: string, rest: string)
    requires IsSchemeText(s)
    ensures SchemeLength(s + "://" + rest) == |s| + 3
  {
    hide FirstSeparator;
    var ref := s + "://" + rest;
    assert ref[|s|] == ':' && ref[|s| + 1] == '/' && ref[|s| + 2] == '/';
    forall j: nat | j < |s|
      ensures !SeparatorAt(ref, j)
    {
      assert ref[j] == s[j] && s[j] in s;
    }
    SeparatorIs(ref, |s|);
    assert ref[..|s|] == s;
    assert IsScheme(s);
  }

  /** Nothing else is. */
  lemma {:induction false} OnlySchemes(ref: string)
    requires SchemeLength(ref) > 0
    ensures var n := SchemeLength(ref); n >= 3 && IsSchemeText(ref[..n - 3]) && ref[n - 3..n] == "://"
  {
    hide FirstSeparator;
    var sep := FirstSeparator(ref).value;
    assert SeparatorAt(ref, sep) && IsScheme(ref[..sep]);
    var s := ref[..sep];
    forall c | c in s
      ensures 'a' <= c <= 'z' || 'A' <= c <= 'Z' || '0' <= c <= '9' || c == '+' || c == '-' || c == '.'
    {
      assert IsSchemeChar(c);
    }
    assert ref[sep..sep + 3] == "://";
  }

  predicate Bare(rest: string) {
    forall j :: 0 <= j < |rest| - 2 && rest[j] == ':' ==> rest[j + 1] != '/' || rest[j + 2] != '/'
  }

  /** Behind a scheme, or in a reference without "://", user information is cut from between there and the
      host, and a reference without any is left alone. */
  lemma {:induction false} RedactComposed(s: string, user: string, host: string, path: string)
    requires '/' !in user && '/' !in host && '@' !in host && (path == "" || path[0] == '/')
    requires IsSchemeText(s)
    ensures Redact(s + "://" + (user + "@" + host + path)) == s + "://" + (host + path)
    ensures Redact(s + "://" + (host + path)) == s + "://" + (host + path)
  {
    hide SchemeLength, UserinfoLength, FirstChar;
    var with, without := user + "@" + host + path, host + path;
    SchemeOf(s, with);
    SchemeOf(s, without);
    UserinfoBefore(user, host, path);
    RedactIs(s + "://", with);
    RedactIs(s + "://", without);
    assert with[|user| + 1..] == without && without[0..] == without;
  }

  lemma {:induction false} RedactIs(front: string, rest: string)
    requires SchemeLength(front + rest) == |front|
    ensures Redact(front + rest) == front + rest[UserinfoLength(rest)..]
  {
    hide SchemeLength, UserinfoLength;
    var ref := front + rest;
    assert ref[..|front|] == front && ref[|front|..] == rest;
  }

  lemma {:induction false} UserinfoBefore(user: string, host: string, path: string)
    requires '/' !in user && '/' !in host && '@' !in host && (path == "" || path[0] == '/')
    ensures UserinfoLength(user + "@" + host + path) == |user| + 1
    ensures UserinfoLength(host + path) == 0
  {
    hide UserinfoLength;
    var rest, n := user + "@" + host + path, |user| + 1 + |host|;
    assert forall i :: 0 <= i < |rest| ==>
             rest[i] == if i < |user| then user[i] else if i == |user| then '@'
                        else if i < n then host[i - |user| - 1] else path[i - n];
    UserinfoIs(rest, n, |user| + 1);
    NoUserinfo(host, path);
  }

  lemma {:induction false} NoUserinfo(host: string, path: string)
    requires '/' !in host && '@' !in host && (path == "" || path[0] == '/')
    ensures UserinfoLength(host + path) == 0
  {
    hide UserinfoLength;
    var rest := host + path;
    assert forall i :: 0 <= i < |host| ==> rest[i] == host[i] && rest[i] != '/' && rest[i] != '@';
    assert path != "" ==> rest[|host|] == '/';
    FirstCharIs(rest, '/', |host|);
  }

  /** The same without a scheme, where nothing reads as "://". */
  lemma {:induction false} RedactSchemeless(user: string, host: string, path: string)
    requires '/' !in user && '/' !in host && '@' !in host && (path == "" || path[0] == '/')
    requires Bare(user + "@" + host + path) && Bare(host + path)
    ensures Redact(user + "@" + host + path) == host + path && Redact(host + path) == host + path
  {
    hide UserinfoLength, SchemeLength, Bare, Redact;
    var with, without := user + "@" + host + path, host + path;
    BareHasNoScheme(with);
    BareHasNoScheme(without);
    UserinfoBefore(user, host, path);
    RedactBare(with);
    RedactBare(without);
    assert with[|user| + 1..] == without && without[0..] == without;
  }

  lemma {:induction false} RedactBare(rest: string)
    requires SchemeLength(rest) == 0
    ensures Redact(rest) == rest[UserinfoLength(rest)..]
  {
    hide UserinfoLength, SchemeLength;
    assert rest[..0] == "" && rest[0..] == rest;
    assert "" + rest[UserinfoLength(rest)..] == rest[UserinfoLength(rest)..];
  }

  lemma {:induction false} BareHasNoScheme(rest: string)
    requires Bare(rest)
    ensures SchemeLength(rest) == 0
  {
    hide FirstSeparator;
    assert forall j: nat :: !SeparatorAt(rest, j);
  }

  // ----- tags -----

  function TrimPrefix(s: string, prefix: string): string { if prefix <= s then s[|prefix|..] else s }

  function StripScheme(ref: string): string { TrimPrefix(TrimPrefix(ref, "http://"), "https://") }

  /** After the last '@', or after the last ':' unless a '/' follows it, or "latest". */
  function TagOf(s: string): string {
    match LastChar(s, '@')
    case Some(at) => s[at + 1..]
    case None =>
      match LastChar(s, ':')
      case Some(colon) => if '/' in s[colon + 1..] then "latest" else s[colon + 1..]
      case None => "latest"
  }

  function ParseTag(ref: string): string { TagOf(StripScheme(ref)) }

  datatype Version = Tag(tag: string) | Digest(digest: string) | Unversioned

  function Suffix(v: Version): string {
    match v
    case Tag(t) => ":" + t
    case Digest(d) => "@" + d
    case Unversioned => ""
  }

  predicate WellFormed(v: Version) {
    match v
    case Tag(t) => '/' !in t && ':' !in t && '@' !in t
    case Digest(d) => '/' !in d && '@' !in d
    case Unversioned => true
  }

  /** Stripping cuts just behind a slash, if anywhere. */
  lemma {:induction false} StripCutsAtSlash(ref: string) returns (k: nat)
    ensures k <= |ref| && StripScheme(ref) == ref[k..]
    ensures k > 0 ==> ref[k - 1] == '/'
  {
    var first := if "http://" <= ref then 7 else 0;
    var once := TrimPrefix(ref, "http://");
    assert first > 0 ==> ref[6] == "http://"[6];
    assert once == ref[first..];
    var second := if "https://" <= once then 8 else 0;
    assert second > 0 ==> once[7] == "https://"[7];
    k := first + second;
    assert StripScheme(ref) == ref[k..];
  }

  /** A digest is recovered from whatever stands in front of it, a tag included; a tag or the default
      from scheme, host and port in front of any repository path free of ':' and '@'. */
  lemma {:induction false} ParseTagRecovers(front: string, repo: string, v: Version)
    requires WellFormed(v) && (v.Digest? || ('@' !in front && '@' !in repo && ':' !in repo))
    ensures ParseTag(front + "/" + repo + Suffix(v)) ==
            match v case Tag(t) => t case Digest(d) => d case Unversioned => "latest"
  {
    hide StripScheme, TagOf;
    var base := front + "/" + repo;
    match v
    case Digest(d) => ParseTagDigest(base, d);
    case Tag(t) =>
      var k := StripCutsAtSlash(base + Suffix(v));
      CutLeavesSuffix(base, v, k);
      NoneBehind(front, repo, k);
      TagAtEnd(base[k..], t);
    case Unversioned =>
      var k := StripCutsAtSlash(base + Suffix(v));
      CutLeavesSuffix(base, v, k);
      assert base[k..] + "" == base[k..];
      NothingAtEnd(front, repo, k);
  }

  lemma {:induction false} ParseTagDigest(front: string, d: string)
    requires '/' !in d && '@' !in d
    ensures ParseTag(front + ("@" + d)) == d
  {
    hide StripScheme, TagOf;
    var k := StripCutsAtSlash(front + Suffix(Digest(d)));
    CutLeavesSuffix(front, Digest(d), k);
    DigestAtEnd(front[k..], d);
  }

  lemma {:induction false} NoneBehind(front: string, repo: string, k: nat)
    requires '@' !in front && '@' !in repo && ':' !in repo && k <= |front + "/" + repo|
    ensures forall i :: 0 <= i < |(front + "/" + repo)[k..]| ==> (front + "/" + repo)[k..][i] != '@'
  {
    NoneIn(front, repo);
    var base := front + "/" + repo;
    assert forall i :: 0 <= i < |base[k..]| ==> base[k..][i] == base[k + i];
  }

  lemma {:induction false} NoneIn(front: string, repo: string)
    requires '@' !in front && '@' !in repo && ':' !in repo
    ensures var base := front + "/" + repo;
            && (forall i :: 0 <= i < |base| ==> base[i] != '@')
            && (forall i :: |front| <= i < |base| ==> base[i] != ':')
  {
  }

  /** The cut lies in front of the version. */
  lemma {:induction false} CutLeavesSuffix(base: string, v: Version, k: nat)
    requires WellFormed(v) && k <= |base + Suffix(v)| && (k > 0 ==> (base + Suffix(v))[k - 1] == '/')
    ensures k <= |base| && (base + Suffix(v))[k..] == base[k..] + Suffix(v)
  {
    assert forall i :: 0 <= i < |Suffix(v)| ==> Suffix(v)[i] != '/';
  }

  lemma {:induction false} TagAtEnd(head: string, t: string)
    requires (forall i :: 0 <= i < |head| ==> head[i] != '@') && '/' !in t && ':' !in t && '@' !in t
    ensures TagOf(head + (":" + t)) == t
  {
    hide LastChar;
    var s := head + (":" + t);
    assert forall i :: 0 <= i < |s| ==>
        s[i] == if i < |head| then head[i] else if i == |head| then ':' else t[i - |head| - 1];
    LastCharIs(s, ':', |head|);
    assert s[|head| + 1..] == t;
  }

  lemma {:induction false} DigestAtEnd(head: string, d: string)
    requires '@' !in d
    ensures TagOf(head + ("@" + d)) == d
  {
    hide LastChar;
    var s := head + ("@" + d);
    assert forall i :: |head| < i < |s| ==> s[i] == d[i - |head| - 1];
    LastCharIs(s, '@', |head|);
    assert s[|head| + 1..] == d;
  }

  /** Without a version, a colon can only be part of the host, in front of a slash. */
  lemma {:induction false} NothingAtEnd(front: string, repo: string, k: nat)
    requires '@' !in front && '@' !in repo && ':' !in repo
    requires k <= |front + "/" + repo|
    ensures TagOf((front + "/" + repo)[k..]) == "latest"
  {
    hide LastChar;
    NoneIn(front, repo);
    var base := front + "/" + repo;
    var s := base[k..];
    assert forall i :: 0 <= i < |s| ==> s[i] == base[k + i];
    var colon := LastChar(s, ':');
    if colon.Some? {
      assert k + colon.value < |front|;
      assert s[colon.value + 1..][|front| - k - colon.value - 1] == '/';
    }
  }
}
