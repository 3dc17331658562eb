/** Ordering by string keys, as sort.Slice is used here: any permutation may come back as long as
    the keys are in order, so results are pinned down only where equal keys mean equal records. */
module Sorting {
  import opened Sequences

  /** Byte-wise lexicographic order. */
  predicate Less(a: string, b: string) {
    b != [] && (a == [] || a[0] < b[0] || (a[0] == b[0] && Less(a[1..], b[1..])))
  }

  /** The strings first differ at `k`, and `a` has the lesser character there. */
  predicate DiffersAt(a: string, b: string, k: nat) { k < |a| && k < |b| && a[..k] == b[..k] && a[k] < b[k] }

  /** Byte order: a proper beginning comes first, and otherwise the first difference decides. */
  lemma {:induction false} LessIs(a: string, b: string)
    ensures Less(a, b) <==> (|a| < |b| && a == b[..|a|]) || (exists k: nat :: DiffersAt(a, b, k))
  {
    if a != "" && b != "" {
      LessIs(a[1..], b[1..]);
      assert a == [a[0]] + a[1..] && b == [b[0]] + b[1..];
      if a[0] == b[0] {
        assert |a| < |b| ==> b[1..][..|a[1..]|] == b[..|a|][1..];
        if k: nat :| DiffersAt(a[1..], b[1..], k) {
          assert a[..k + 1] == [a[0]] + a[1..][..k] && b[..k + 1] == [b[0]] + b[1..][..k];
          assert DiffersAt(a, b, k + 1);
        }
        if k: nat :| DiffersAt(a, b, k) {
          assert k > 0 && a[1..][..k - 1] == a[..k][1..] && b[1..][..k - 1] == b[..k][1..];
          assert DiffersAt(a[1..], b[1..], k - 1);
        }
      } else if a[0] < b[0] {
        assert DiffersAt(a, b, 0);
      } else {
        assert forall k :: 0 < k <= |a| && k <= |b| ==> a[..k][0] == a[0] && b[..k][0] == b[0];
      }
    }
  }

  lemma {:induction false} LessIrreflexive(a: string)
    ensures !Less(a, a)
  {
    if a != [] {
      LessIrreflexive(a[1..]);
    }
  }

  lemma {:induction false} LessTransitive(a: string, b: string, c: string)
    requires Less(a, b) && Less(b, c)
    ensures Less(a, c)
  {
    if a != [] && a[0] == b[0] == c[0] {
      LessTransitive(a[1..], b[1..], c[1..]);
    }
  }

  lemma {:induction false} LessTotal(a: string, b: string)
    ensures a == b || Less(a, b) || Less(b, a)
  {
    if a != [] && b != [] && a[0] == b[0] {
      LessTotal(a[1..], b[1..]);
      assert a == [a[0]] + a[1..] && b == [b[0]] + b[1..];
    }
  }

  /** No later key is smaller than an earlier one. */
  ghost predicate Sorted<T>(s: seq<T>, key: T -> string) {
    forall i, j :: 0 <= i < j < |s| ==> !Less(key(s[j]), key(s[i]))
  }

  ghost predicate StrictlySorted<T>(s: seq<T>, key: T -> string) {
    forall i, j :: 0 <= i < j < |s| ==> Less(key(s[i]), key(s[j]))
  }

  /** Stands for sort.Slice: callers may rely on order and content only. */
  method Sort<T>(s: seq<T>, key: T -> string) returns (t: seq<T>)
    ensures Sorted(t, key) && multiset(t) == multiset(s)
  {
    hide Sorted, Less;
    t := [];
    assert Sorted(t, key) by { SortedEmpty(key); }
    for n := 0 to |s|
      invariant Sorted(t, key) && multiset(t) == multiset(s[..n])
    {
      var k := |t|;
      while k > 0 && Less(key(s[n]), key(t[k - 1]))
        invariant 0 <= k <= |t|
        invariant forall j :: k <= j < |t| ==> Less(key(s[n]), key(t[j]))
      {
        k := k - 1;
      }
      InsertSorted(t, key, s[n], k);
      InsertKeeps(t, s[n], k);
      assert s[..n + 1] == s[..n] + [s[n]];
      t := t[..k] + [s[n]] + t[k..];
    }
    assert s[..|s|] == s;
  }

  lemma {:induction false} SortedEmpty<T>(key: T -> string)
    ensures Sorted([], key)
  {
  }

  lemma {:induction false} InsertKeeps<T>(t: seq<T>, x: T, k: nat)
    requires k <= |t|
    ensures multiset(t[..k] + [x] + t[k..]) == multiset(t) + multiset{x}
  {
    assert t == t[..k] + t[k..];
  }

  lemma {:induction false} InsertSorted<T>(t: seq<T>, key: T -> string, x: T, k: nat)
    requires Sorted(t, key) && k <= |t|
    requires forall j :: k <= j < |t| ==> Less(key(x), key(t[j]))
    requires k > 0 ==> !Less(key(x), key(t[k - 1]))
    ensures Sorted(t[..k] + [x] + t[k..], key)
  {
    var u := t[..k] + [x] + t[k..];
    forall i, j | 0 <= i < j < |u|
      ensures !Less(key(u[j]), key(u[i]))
    {
      if i < j == k {
        NotAbove(key(x), key(t[i]), key(t[k - 1]));
      } else if i == k < j {
        NotBoth(key(x), key(t[j - 1]));
      }
    }
  }

  lemma {:induction false} NotBoth(a: string, b: string)
    requires Less(a, b)
    ensures !Less(b, a)
  {
    if Less(b, a) {
      LessTransitive(a, b, a);
      LessIrreflexive(a);
    }
  }

  lemma {:induction false} Asymmetric(a: string, b: string)
    ensures !(Less(a, b) && Less(b, a))
  {
    if Less(a, b) {
      NotBoth(a, b);
    }
  }

  /** x is not below `last`, and `last` is not below `earlier`, so x is not below `earlier`. */
  lemma {:induction false} NotAbove(x: string, earlier: string, last: string)
    requires !Less(x, last) && (earlier == last || !Less(last, earlier))
    ensures !Less(x, earlier)
  {
    if Less(x, earlier) {
      LessTotal(last, earlier);
      if Less(earlier, last) {
        LessTransitive(x, earlier, last);
      }
    }
  }

  /** Equal keys mean equal records. */
  ghost predicate KeyDetermines<T>(s: seq<T>, key: T -> string) {
    forall x, y :: x in s && y in s && key(x) == key(y) ==> x == y
  }

  /** When equal keys mean equal records there is only one sorted arrangement. */
  lemma {:induction false} SortedIsUnique<T>(s: seq<T>, t: seq<T>, key: T -> string)
    requires Sorted(s, key) && Sorted(t, key) && multiset(s) == multiset(t) && KeyDetermines(s, key)
    ensures s == t
    decreases |s|
  {
    if s == [] {
      assert t == [] by { assert |multiset(t)| == |t|; }
    } else {
      assert |multiset(s)| == |s| && |multiset(t)| == |t|;
      SameHead(s, t, key);
      MultisetTail(s);
      MultisetTail(t);
      SortedIsUnique(s[1..], t[1..], key);
    }
  }

  lemma {:induction false} MultisetTail<T>(s: seq<T>)
    requires s != []
    ensures multiset(s[1..]) == multiset(s) - multiset{s[0]}
    ensures forall x :: x in s[1..] ==> x in s
  {
    assert s == [s[0]] + s[1..];
  }

  lemma {:induction false} SameHead<T>(s: seq<T>, t: seq<T>, key: T -> string)
    requires Sorted(s, key) && Sorted(t, key) && multiset(s) == multiset(t) && KeyDetermines(s, key)
    requires s != [] && t != []
    ensures s[0] == t[0]
  {
    assert s[0] in multiset(t) && t[0] in multiset(s);
    var i :| 0 <= i < |t| && t[i] == s[0];
    var j :| 0 <= j < |s| && s[j] == t[0];
    assert i == 0 || !Less(key(t[i]), key(t[0]));
    assert j == 0 || !Less(key(s[j]), key(s[0]));
    LessTotal(key(s[0]), key(t[0]));
    LessIrreflexive(key(s[0]));
  }

  lemma {:induction false} SortedDistinctIsStrict<T>(s: seq<T>, key: T -> string)
    requires Sorted(s, key)
    requires forall i, j :: 0 <= i < j < |s| ==> key(s[i]) != key(s[j])
    ensures StrictlySorted(s, key)
  {
    forall i, j | 0 <= i < j < |s|
      ensures Less(key(s[i]), key(s[j]))
    {
      LessTotal(key(s[i]), key(s[j]));
    }
  }

  /** Sorting elements with distinct keys sorts them strictly and keeps exactly them. */
  lemma {:induction false} SortedDistinctKeys<T>(s: seq<T>, t: seq<T>, key: T -> string)
    requires Sorted(t, key) && multiset(t) == multiset(s)
    requires forall i, j :: 0 <= i < j < |s| ==> key(s[i]) != key(s[j])
    ensures StrictlySorted(t, key)
    ensures forall x :: x in t <==> x in s
  {
    assert forall x :: x in t <==> x in multiset(t);
    assert forall x :: x in s <==> x in multiset(s);
    forall i, j | 0 <= i < j < |t|
      ensures key(t[i]) != key(t[j])
    {
      assert t[i] in t && t[j] in t;
      var k :| 0 <= k < |s| && s[k] == t[i];
      var l :| 0 <= l < |s| && s[l] == t[j];
      if k == l {
        TwoCopies(t, i, j);
        OneCopy(s, k, key);
      }
    }
    SortedDistinctIsStrict(t, key);
  }

  lemma {:induction false} OneCopy<T>(s: seq<T>, k: nat, key: T -> string)
    requires k < |s| && forall i, j :: 0 <= i < j < |s| ==> key(s[i]) != key(s[j])
    ensures multiset(s)[s[k]] == 1
  {
    assert s == s[..k] + [s[k]] + s[k + 1..];
    assert s[k] !in s[..k] && s[k] !in s[k + 1..];
  }

  /** Strictly sorted sequences with the same elements are equal. */
  lemma {:induction false} StrictlySortedIsUnique<T>(xs: seq<T>, ys: seq<T>, key: T -> string)
    requires StrictlySorted(xs, key) && StrictlySorted(ys, key)
    requires forall x :: x in xs <==> x in ys
    ensures xs == ys
    decreases |xs|
  {
    assert |ys| > 0 ==> ys[0] in xs;
    if xs != [] {
      assert xs[0] in ys;
      var i :| 0 <= i < |xs| && xs[i] == ys[0];
      var j :| 0 <= j < |ys| && ys[j] == xs[0];
      Asymmetric(key(xs[0]), key(ys[0]));
      assert i == 0 || j == 0;
      AfterFirst(xs, key);
      AfterFirst(ys, key);
      StrictlySortedIsUnique(xs[1..], ys[1..], key);
      assert xs == [xs[0]] + xs[1..] && ys == [ys[0]] + ys[1..];
    }
  }

  lemma {:induction false} AfterFirst<T>(xs: seq<T>, key: T -> string)
    requires xs != [] && StrictlySorted(xs, key)
    ensures forall x :: x in xs[1..] <==> x in xs && x != xs[0]
    ensures StrictlySorted(xs[1..], key)
  {
    forall k | 1 <= k < |xs|
      ensures xs[k] != xs[0]
    {
      LessIrreflexive(key(xs[0]));
    }
    assert xs == [xs[0]] + xs[1..];
  }
}
