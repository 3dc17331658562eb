/** Vocabulary about sequences, options and results shared by the other modules. */
module Sequences {

  datatype Option<+T> = None | Some(value: T)

  datatype Result<+R, +E> = Success(value: R) | Failure(error: E)

  function Elements<T>(s: seq<T>): set<T> { set x | x in s }

  ghost predicate Distinct<T>(s: seq<T>) {
    forall i, j :: 0 <= i < j < |s| ==> s[i] != s[j]
  }

  lemma {:induction false} ElementsAppend<T>(xs: seq<T>, ys: seq<T>)
    ensures Elements(xs + ys) == Elements(xs) + Elements(ys)
  {
    forall x | x in Elements(xs) + Elements(ys)
      ensures x in xs + ys
    {
      if x in xs {
        var i :| 0 <= i < |xs| && xs[i] == x;
        assert (xs + ys)[i] == x;
      } else {
        var i :| 0 <= i < |ys| && ys[i] == x;
        assert (xs + ys)[|xs| + i] == x;
      }
    }
  }

  lemma {:induction false} SomeElement<T>(s: seq<T>)
    ensures s == [] || exists x :: x in s
  {
    if s != [] {
      assert s[0] in s;
    }
  }

  /** Every value sits under its own id. */
  ghost predicate Keyed<V>(m: map<string, V>, id: V -> string) { forall k <- m :: id(m[k]) == k }

  function Flatten<T>(parts: seq<seq<T>>): seq<T> {
    if parts == [] then [] else parts[0] + Flatten(parts[1..])
  }

  function Min(x: nat, y: nat): nat { if x < y then x else y }

  function Without<T>(s: seq<T>, k: nat): (r: seq<T>)
    requires k < |s|
    ensures |r| == |s| - 1
  {
    s[..k] + s[k + 1..]
  }

  lemma {:induction false} MultisetWithout<T>(s: seq<T>, k: nat)
    requires k < |s|
    ensures multiset(s) == multiset(Without(s, k)) + multiset{s[k]}
  {
    assert s == s[..k] + [s[k]] + s[k + 1..];
  }

  lemma {:induction false} TwoCopies<T>(t: seq<T>, i: nat, j: nat)
    requires i < j < |t| && t[i] == t[j]
    ensures multiset(t)[t[i]] >= 2
  {
    assert t == t[..i] + [t[i]] + t[i + 1..j] + [t[j]] + t[j + 1..];
  }

  /** Two ways to cut one sequence: the longer front is the shorter one and some more. */
  lemma {:induction false} TwoCuts<T>(a: seq<T>, b: seq<T>, c: seq<T>, d: seq<T>)
    requires a + b == c + d && |a| <= |c|
    ensures c == a + c[|a|..] && b == c[|a|..] + d
  {
    var s := a + b;
    assert a == s[..|a|] && b == s[|a|..] && c == s[..|c|] && d == s[|c|..];
  }

  // ----- strings in pieces -----

  /** The pieces between separators; never empty. */
  function Split(s: string, separator: char): (parts: seq<string>)
    ensures parts != []
  {
    if s == [] then [[]]
    else
      var rest := Split(s[1..], separator);
      if s[0] == separator then [[]] + rest else [[s[0]] + rest[0]] + rest[1..]
  }

  /** The first piece ends at the first separator, or is everything. */
  lemma {:induction false} FirstPiece(s: string, separator: char)
    ensures var first := Split(s, separator)[0];
            && |first| <= |s| && first == s[..|first|] && separator !in first
            && (|first| < |s| <==> |Split(s, separator)| > 1)
            && (|first| < |s| ==>
                  s[|first|] == separator && Split(s, separator)[1..] == Split(s[|first| + 1..], separator))
  {
    if s != [] && s[0] != separator {
      FirstPiece(s[1..], separator);
      var first := Split(s, separator)[0];
      assert first == [s[0]] + Split(s[1..], separator)[0];
      assert |first| < |s| ==> s[1..][|first| - 1] == s[|first|] && s[1..][|first|..] == s[|first| + 1..];
    }
  }
}
