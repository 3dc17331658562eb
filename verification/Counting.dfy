/** Counting the same things two ways: weights grouped by key against weights summed in one sweep. */
module Counting {
  import opened Sequences

  datatype Weighted = Weighted(key: string, weight: nat)

  function Total(ws: seq<Weighted>): nat { if ws == [] then 0 else ws[0].weight + Total(ws[1..]) }

  /** The weight filed under one key. */
  function Under(ws: seq<Weighted>, key: string): nat {
    if ws == [] then 0 else (if ws[0].key == key then ws[0].weight else 0) + Under(ws[1..], key)
  }

  function UnderEach(ws: seq<Weighted>, keys: seq<string>): nat {
    if keys == [] then 0 else Under(ws, keys[0]) + UnderEach(ws, keys[1..])
  }

  /** Distinct keys that cover every item account for the whole weight, once. */
  lemma {:induction false} GroupsAddUp(ws: seq<Weighted>, keys: seq<string>)
    requires Distinct(keys) && forall w <- ws :: w.key in keys
    ensures UnderEach(ws, keys) == Total(ws)
    decreases |ws|
  {
    if ws == [] {
      NothingUnder(keys);
    } else {
      assert ws[0] in ws;
      GroupsAddUp(ws[1..], keys);
      OneMore(ws, keys);
    }
  }

  lemma {:induction false} NothingUnder(keys: seq<string>)
    ensures UnderEach([], keys) == 0
  {
    if keys != [] {
      NothingUnder(keys[1..]);
    }
  }

  lemma {:induction false} OneMore(ws: seq<Weighted>, keys: seq<string>)
    requires ws != [] && Distinct(keys)
    ensures UnderEach(ws, keys) == (if ws[0].key in keys then ws[0].weight else 0) + UnderEach(ws[1..], keys)
  {
    if keys != [] {
      OneMore(ws, keys[1..]);
      assert ws[0].key in keys[1..] ==> ws[0].key != keys[0];
    }
  }

  lemma {:induction false} TotalAppend(xs: seq<Weighted>, ys: seq<Weighted>)
    ensures Total(xs + ys) == Total(xs) + Total(ys)
  {
    if xs == [] {
      assert xs + ys == ys;
    } else {
      TotalAppend(xs[1..], ys);
      assert (xs + ys)[1..] == xs[1..] + ys;
    }
  }

  lemma {:induction false} UnderAppend(xs: seq<Weighted>, ys: seq<Weighted>, key: string)
    ensures Under(xs + ys, key) == Under(xs, key) + Under(ys, key)
  {
    if xs == [] {
      assert xs + ys == ys;
    } else {
      UnderAppend(xs[1..], ys, key);
      assert (xs + ys)[1..] == xs[1..] + ys;
    }
  }
}
