/** Sums of a cost function over a sequence, and the few facts about them the thread pool needs. */
module Sums {

  function Sum<T>(f: T -> nat, xs: seq<T>): (n: nat)
  {
    if xs == [] then 0 else Sum(f, xs[..|xs| - 1]) + f(xs[|xs| - 1])
  }

  lemma {:induction false} SumUpdate<T>(f: T -> nat, xs: seq<T>, i: nat, v: T)
    requires i < |xs|
    ensures Sum(f, xs[i := v]) + f(xs[i]) == Sum(f, xs) + f(v)
    decreases |xs|
  {
    var ys, last := xs[i := v], |xs| - 1;
    if i == last {
      assert ys[..last] == xs[..last];
    } else {
      assert ys[..last] == xs[..last][i := v];
      SumUpdate(f, xs[..last], i, v);
    }
  }

  lemma SumAppend<T>(f: T -> nat, xs: seq<T>, v: T)
    ensures Sum(f, xs + [v]) == Sum(f, xs) + f(v)
  {
    assert (xs + [v])[..|xs|] == xs;
  }

  lemma {:induction false} SumAtLeast<T>(f: T -> nat, xs: seq<T>, i: nat)
    requires i < |xs|
    ensures f(xs[i]) <= Sum(f, xs)
    decreases |xs|
  {
    if i < |xs| - 1 {
      SumAtLeast(f, xs[..|xs| - 1], i);
    }
  }

  lemma {:induction false} SumPositive<T>(f: T -> nat, xs: seq<T>) returns (i: nat)
    requires Sum(f, xs) > 0
    ensures i < |xs| && f(xs[i]) > 0
    decreases |xs|
  {
    var last := |xs| - 1;
    if f(xs[last]) > 0 {
      i := last;
    } else {
      i := SumPositive(f, xs[..last]);
    }
  }
}
