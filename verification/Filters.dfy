/** Sequences described from outside: what a filter of a sequence is, and sequences made by mapping or
    by joining parts, without saying how any of them is computed. */
module Filters {
  import opened Sequences

  ghost predicate Increasing(at: seq<nat>) { forall j, k :: 0 <= j < k < |at| ==> at[j] < at[k] }

  /** The positions listed are exactly those of elements that satisfy `p`. */
  ghost predicate Chosen<T>(at: seq<nat>, s: seq<T>, p: T -> bool) {
    forall i: nat :: i in at <==> i < |s| && p(s[i])
  }

  ghost predicate Reads<T>(r: seq<T>, s: seq<T>, at: seq<nat>) {
    |r| == |at| && forall k :: 0 <= k < |at| ==> at[k] < |s| && r[k] == s[at[k]]
  }

  /** The elements of `s` that satisfy `p`, in the order and as often as they occur there. */
  ghost predicate IsFilter<T>(r: seq<T>, s: seq<T>, p: T -> bool) {
    exists at :: Increasing(at) && Chosen(at, s, p) && Reads(r, s, at)
  }

  lemma {:induction false} FilterNone<T>(p: T -> bool)
    ensures IsFilter([], [], p)
  {
    var none: seq<T> := [];
    assert Increasing([]) && Chosen([], none, p) && Reads(none, none, []);
  }

  lemma {:induction false} FilterSnoc<T>(r: seq<T>, s: seq<T>, x: T, p: T -> bool)
    requires IsFilter(r, s, p)
    ensures IsFilter(if p(x) then r + [x] else r, s + [x], p)
  {
    hide Chosen, Increasing, Reads;
    var at: seq<nat> :| Increasing(at) && Chosen(at, s, p) && Reads(r, s, at);
    ChosenSnoc(at, s, x, p);
    ReadsSnoc(r, s, x, at);
  }

  lemma {:induction false} ReadsSnoc<T>(r: seq<T>, s: seq<T>, x: T, at: seq<nat>)
    requires Reads(r, s, at)
    ensures Reads(r, s + [x], at) && Reads(r + [x], s + [x], at + [|s|])
  {
  }

  lemma {:induction false} ChosenSnoc<T>(at: seq<nat>, s: seq<T>, x: T, p: T -> bool)
    requires Increasing(at) && Chosen(at, s, p)
    ensures var more: seq<nat> := if p(x) then at + [|s|] else at; Increasing(more) && Chosen(more, s + [x], p)
  {
    var more: seq<nat> := if p(x) then at + [|s|] else at;
    assert forall i: nat :: i in more <==> i in at || (p(x) && i == |s|);
    assert forall k :: 0 <= k < |at| ==> at[k] in at;
    forall i: nat
      ensures i in more <==> i < |s + [x]| && p((s + [x])[i])
    {
      if i < |s| {
        assert (s + [x])[i] == s[i];
      }
    }
  }

  function Shifted(at: seq<nat>): (r: seq<nat>)
    ensures |r| == |at| && forall k :: 0 <= k < |at| ==> r[k] == at[k] + 1
  {
    seq(|at|, k requires 0 <= k < |at| => at[k] + 1)
  }

  lemma {:induction false} ShiftedHolds(at: seq<nat>)
    ensures forall i: nat :: i in Shifted(at) <==> i > 0 && i - 1 in at
  {
    forall i: nat
      ensures i in Shifted(at) <==> i > 0 && i - 1 in at
    {
      if i > 0 && i - 1 in at {
        var k :| 0 <= k < |at| && at[k] == i - 1;
        assert Shifted(at)[k] == i;
      }
    }
  }

  lemma {:induction false} FilterCons<T>(x: T, r: seq<T>, s: seq<T>, p: T -> bool)
    requires IsFilter(r, s, p)
    ensures IsFilter(if p(x) then [x] + r else r, [x] + s, p)
  {
    hide Chosen, Increasing, Reads, Shifted;
    var at: seq<nat> :| Increasing(at) && Chosen(at, s, p) && Reads(r, s, at);
    ChosenCons(x, at, s, p);
    ReadsCons(x, r, s, at);
  }

  lemma {:induction false} ReadsCons<T>(x: T, r: seq<T>, s: seq<T>, at: seq<nat>)
    requires Reads(r, s, at)
    ensures Reads(r, [x] + s, Shifted(at)) && Reads([x] + r, [x] + s, [0] + Shifted(at))
  {
  }

  lemma {:induction false} ChosenCons<T>(x: T, at: seq<nat>, s: seq<T>, p: T -> bool)
    requires Increasing(at) && Chosen(at, s, p)
    ensures var more: seq<nat> := if p(x) then [0] + Shifted(at) else Shifted(at);
            Increasing(more) && Chosen(more, [x] + s, p)
  {
    ShiftedHolds(at);
    var more: seq<nat> := if p(x) then [0] + Shifted(at) else Shifted(at);
    assert forall i: nat :: i in more <==> (p(x) && i == 0) || i in Shifted(at);
    forall i: nat
      ensures i in more <==> i < |[x] + s| && p(([x] + s)[i])
    {
      if 0 < i <= |s| {
        assert ([x] + s)[i] == s[i - 1];
      }
    }
  }

  /** A filter holds exactly the elements that satisfy the condition. */
  lemma {:induction false} FilterHolds<T>(r: seq<T>, s: seq<T>, p: T -> bool)
    requires IsFilter(r, s, p)
    ensures forall x :: x in r <==> x in s && p(x)
  {
    var at: seq<nat> :| Increasing(at) && Chosen(at, s, p) && Reads(r, s, at);
    forall x
      ensures x in r <==> x in s && p(x)
    {
      if x in r {
        var k :| 0 <= k < |r| && r[k] == x;
        assert at[k] in at && s[at[k]] == x;
      }
      if x in s && p(x) {
        var i: nat :| i < |s| && s[i] == x;
        assert i in at;
        var k :| 0 <= k < |at| && at[k] == i;
        assert r[k] == x;
      }
    }
  }

  lemma {:induction false} ChosenAgree<T>(at: seq<nat>, bt: seq<nat>, s: seq<T>, p: T -> bool)
    requires Chosen(at, s, p) && Chosen(bt, s, p)
    ensures forall i: nat :: i in at <==> i in bt
  {
  }

  lemma {:induction false} ReadsAgree<T>(a: seq<T>, b: seq<T>, s: seq<T>, at: seq<nat>)
    requires Reads(a, s, at) && Reads(b, s, at)
    ensures a == b
  {
  }

  /** There is one filter. */
  lemma {:induction false} FilterIsUnique<T>(a: seq<T>, b: seq<T>, s: seq<T>, p: T -> bool)
    requires IsFilter(a, s, p) && IsFilter(b, s, p)
    ensures a == b
  {
    hide Chosen, Increasing, Reads;
    var at: seq<nat> :| Increasing(at) && Chosen(at, s, p) && Reads(a, s, at);
    var bt: seq<nat> :| Increasing(bt) && Chosen(bt, s, p) && Reads(b, s, bt);
    ChosenAgree(at, bt, s, p);
    PositionsAgree(at, bt);
    ReadsAgree(a, b, s, at);
  }

  /** Increasing lists of the same numbers are the same list. */
  lemma {:induction false} PositionsAgree(at: seq<nat>, bt: seq<nat>)
    requires Increasing(at) && Increasing(bt) && forall i: nat :: i in at <==> i in bt
    ensures at == bt
    decreases |at|
  {
    if at == [] {
      SomeElement(bt);
    } else {
      assert at[0] in at && at[0] in bt && bt[0] in bt && bt[0] in at;
      BehindFirst(at);
      BehindFirst(bt);
      PositionsAgree(at[1..], bt[1..]);
      assert at == [at[0]] + at[1..] && bt == [bt[0]] + bt[1..];
    }
  }

  lemma {:induction false} BehindFirst(at: seq<nat>)
    requires at != [] && Increasing(at)
    ensures Increasing(at[1..]) && forall i: nat :: i in at[1..] <==> i in at && i > at[0]
    ensures forall i <- at :: i >= at[0]
  {
    assert at == [at[0]] + at[1..];
    forall i: nat
      ensures i in at[1..] <==> i in at && i > at[0]
    {
      if i in at[1..] {
        var k :| 0 <= k < |at[1..]| && at[1..][k] == i;
        assert at[k + 1] == i && at[0] < at[k + 1];
      }
    }
  }

  // ----- images and joined parts -----

  function Images<S, T>(s: seq<S>, f: S -> T): (r: seq<T>)
    ensures |r| == |s| && forall i :: 0 <= i < |s| ==> r[i] == f(s[i])
  {
    seq(|s|, i requires 0 <= i < |s| => f(s[i]))
  }

  /** Rearranging a sequence rearranges its image. */
  lemma {:induction false} SameImages<S, T>(s: seq<S>, t: seq<S>, f: S -> T)
    requires multiset(s) == multiset(t)
    ensures multiset(Images(s, f)) == multiset(Images(t, f))
    decreases |s|
  {
    hide Images, Without;
    if s == [] {
      assert |multiset(t)| == 0;
    } else {
      assert s[0] in multiset(t);
      var k :| 0 <= k < |t| && t[k] == s[0];
      MultisetWithout(s, 0);
      MultisetWithout(t, k);
      assert multiset(Without(s, 0)) == multiset(s) - multiset{s[0]};
      assert multiset(Without(t, k)) == multiset(t) - multiset{s[0]};
      SameImages(Without(s, 0), Without(t, k), f);
      ImageWithout(s, 0, f);
      ImageWithout(t, k, f);
    }
  }

  lemma {:induction false} ImageWithout<S, T>(s: seq<S>, k: nat, f: S -> T)
    requires k < |s|
    ensures multiset(Images(s, f)) == multiset(Images(Without(s, k), f)) + multiset{f(s[k])}
  {
    assert Images(Without(s, k), f) == Without(Images(s, f), k);
    MultisetWithout(Images(s, f), k);
  }

  lemma {:induction false} FlattenSnoc<T>(parts: seq<seq<T>>, last: seq<T>)
    ensures Flatten(parts + [last]) == Flatten(parts) + last
  {
    if parts == [] {
      assert parts + [last] == [last] && [last][1..] == [];
    } else {
      FlattenSnoc(parts[1..], last);
      assert (parts + [last])[1..] == parts[1..] + [last];
    }
  }

  /** Joining the images of one more element adds its image at the end. */
  lemma {:induction false} JoinSnoc<S, T>(s: seq<S>, x: S, f: S -> seq<T>)
    ensures Flatten(Images(s + [x], f)) == Flatten(Images(s, f)) + f(x)
  {
    assert Images(s + [x], f) == Images(s, f) + [f(x)];
    FlattenSnoc(Images(s, f), f(x));
  }

  lemma {:induction false} JoinCons<S, T>(x: S, s: seq<S>, f: S -> seq<T>)
    ensures Flatten(Images([x] + s, f)) == f(x) + Flatten(Images(s, f))
  {
    assert Images([x] + s, f) == [f(x)] + Images(s, f);
    assert ([f(x)] + Images(s, f))[1..] == Images(s, f);
  }

  /** What joined parts hold. */
  lemma {:induction false} JoinHolds<S, T>(s: seq<S>, f: S -> seq<T>)
    ensures forall x :: x in Flatten(Images(s, f)) <==> exists y <- s :: x in f(y)
  {
    if s != [] {
      JoinHolds(s[1..], f);
      JoinCons(s[0], s[1..], f);
      assert s == [s[0]] + s[1..];
      assert forall y :: y in s <==> y == s[0] || y in s[1..];
    }
  }
}
