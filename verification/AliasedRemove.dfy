/**
 v.erase(std::remove(v.begin(), v.end(), *iter), v.end()) where iter points into v. The value to remove is passed
 by reference, so it is read from the very slot that the removal overwrites.
 */
module AliasedRemove {
  import opened Common

  /** std::find: the first position of x, or the end. */
  function Find<T(==)>(xs: seq<T>, x: T): (k: nat)
    ensures k <= |xs| && (k < |xs| ==> xs[k] == x) && forall i :: 0 <= i < k ==> xs[i] != x
  {
    FindFirst(xs, (y: T) => y == x)
  }

  /** The removal the call site has in mind. */
  function Without<T(==)>(xs: seq<T>, x: T): seq<T> {
    if xs == [] then [] else (if xs[0] == x then [] else [xs[0]]) + Without(xs[1..], x)
  }

  /**
   What survives of rest when the value is read through the slot in front of the survivors: that slot holds x until the
   first survivor moves into it.
   */
  function Survivors<T(==)>(rest: seq<T>, x: T): seq<T> {
    if rest == [] then []
    else
      var kept, y := Survivors(rest[..|rest| - 1], x), rest[|rest| - 1];
      if y == (if kept == [] then x else kept[0]) then kept else kept + [y]
  }

  /** The removal that is carried out, for the element found at position k. */
  function AfterRemove<T(==)>(xs: seq<T>, k: nat): seq<T>
    requires k < |xs|
  {
    xs[..k] + Survivors(xs[k + 1..], xs[k])
  }

  /** find, then erase and remove by reference, in place. */
  method EraseRemove<T(==)>(v: seq<T>, x: T) returns (r: seq<T>)
    ensures r == Erase(v, x)
  {
    var iter := Find(v, x);
    if iter == |v| {
      return v;
    }
    var next;
    r, next := Remove(v, iter);
    r := r[..next];
  }

  /** std::remove from the position found on: the survivors come first, and their end is returned with them. */
  method Remove<T(==)>(v: seq<T>, iter: nat) returns (r: seq<T>, next: nat)
    requires iter < |v|
    ensures next <= |r| && r[..next] == AfterRemove(v, iter)
  {
    ghost var rest, kept := v[iter + 1..], [];
    r, next := v, iter;
    var i := iter + 1;
    while i < |r|
      invariant iter < i <= |r| == |v| && next == iter + |kept| < i
      invariant kept == Survivors(rest[..i - iter - 1], v[iter])
      invariant forall k :: 0 <= k < iter ==> r[k] == v[k]
      invariant forall k :: 0 <= k < |kept| ==> r[iter + k] == kept[k]
      invariant kept == [] ==> r[iter] == v[iter]
      invariant forall k :: i <= k < |v| ==> r[k] == v[k]
    {
      OneMore(rest, i - iter - 1, v[iter]);
      if r[i] != r[iter] {
        kept := kept + [r[i]];
        r := r[next := r[i]];
        next := next + 1;
      }
      i := i + 1;
    }
    assert rest[..|rest|] == rest;
    assert r[..next] == v[..iter] + kept;
  }

  lemma OneMore<T>(rest: seq<T>, j: nat, x: T)
    requires j < |rest|
    ensures var kept := Survivors(rest[..j], x);
      Survivors(rest[..j + 1], x) == if rest[j] == (if kept == [] then x else kept[0]) then kept else kept + [rest[j]]
  {
    assert rest[..j + 1][..j] == rest[..j];
  }

  function Erase<T(==)>(xs: seq<T>, x: T): seq<T> {
    var k := Find(xs, x);
    if k < |xs| then AfterRemove(xs, k) else xs
  }

  lemma {:induction false} WithoutMember<T>(xs: seq<T>, x: T, y: T)
    ensures y in Without(xs, x) <==> y in xs && y != x
  {
    if xs == [] {
    } else {
      WithoutMember(xs[1..], x, y);
    }
  }

  lemma {:induction false} WithoutAbsent<T>(xs: seq<T>, x: T)
    requires x !in xs
    ensures Without(xs, x) == xs
  {
    if xs == [] {
    } else {
      WithoutAbsent(xs[1..], x);
    }
  }

  lemma {:induction false} WithoutSplit<T>(xs: seq<T>, ys: seq<T>, x: T)
    ensures Without(xs + ys, x) == Without(xs, x) + Without(ys, x)
  {
    if xs == [] {
      assert xs + ys == ys;
    } else {
      assert (xs + ys)[1..] == xs[1..] + ys;
      WithoutSplit(xs[1..], ys, x);
    }
  }

  /** No duplicates of x, and none of the first other element, once that element has been reached. */
  ghost predicate SafeTail<T>(rest: seq<T>, x: T) {
    rest == [] ||
    if rest[0] == x then SafeTail(rest[1..], x) else x !in rest[1..] && rest[0] !in rest[1..]
  }

  /** Elements equal to x are skipped; the first other one stays and becomes the value that is removed. */
  lemma {:induction false} SurvivorsFromFront<T>(rest: seq<T>, x: T)
    ensures rest != [] && rest[0] == x ==> Survivors(rest, x) == Survivors(rest[1..], x)
    ensures rest != [] && rest[0] != x ==> Survivors(rest, x) == [rest[0]] + Without(rest[1..], rest[0])
    decreases |rest|
  {
    if |rest| == 1 {
      assert rest[..0] == [];
    } else if rest != [] {
      var last := |rest| - 1;
      SurvivorsFromFront(rest[..last], x);
      assert rest[..last][1..] == rest[1..][..last - 1] && rest[1..][last - 1] == rest[last];
      if rest[0] != x {
        assert rest[1..] == rest[1..][..last - 1] + [rest[last]];
        WithoutSplit(rest[1..][..last - 1], [rest[last]], rest[0]);
        WithoutOne(rest[last], rest[0]);
      }
    }
  }

  lemma WithoutOne<T>(y: T, x: T)
    ensures Without([y], x) == if y == x then [] else [y]
  {
    assert Without<T>([], x) == [];
  }

  lemma {:induction false} SurvivorsExact<T>(rest: seq<T>, x: T)
    ensures Survivors(rest, x) == Without(rest, x) <==> SafeTail(rest, x)
  {
    SurvivorsFromFront(rest, x);
    if rest == [] {
    } else if rest[0] == x {
      SurvivorsExact(rest[1..], x);
    } else {
      var w, tail := rest[0], rest[1..];
      assert Survivors(rest, x)[1..] == Without(tail, w) && Without(rest, x)[1..] == Without(tail, x);
      if x !in tail && w !in tail {
        WithoutAbsent(tail, x);
        WithoutAbsent(tail, w);
      } else {
        WithoutMember(tail, x, x);
        WithoutMember(tail, x, w);
        WithoutMember(tail, w, x);
        WithoutMember(tail, w, w);
      }
    }
  }

  /**
   The removal does what was meant exactly when, behind the first element that differs from x, neither x nor that
   element occurs again.
   */
  lemma EraseExact<T>(xs: seq<T>, x: T)
    requires x in xs
    ensures Erase(xs, x) == Without(xs, x) <==> SafeTail(xs[Find(xs, x) + 1..], x)
  {
    var k := Find(xs, x);
    var rest := xs[k + 1..];
    assert xs == xs[..k] + ([x] + rest);
    WithoutSplit(xs[..k], [x] + rest, x);
    WithoutAbsent(xs[..k], x);
    assert Without([x] + rest, x) == Without(rest, x) by {
      assert ([x] + rest)[1..] == rest;
    }
    assert Erase(xs, x) == xs[..k] + Survivors(rest, x) && Without(xs, x) == xs[..k] + Without(rest, x);
    assert Erase(xs, x)[k..] == Survivors(rest, x) && Without(xs, x)[k..] == Without(rest, x);
    SurvivorsExact(rest, x);
  }

  /** With a duplicate the first entry goes and a later one can stay: removing 1 from [1, 2, 1] leaves [2, 1]. */
  lemma DuplicateSurvives()
    ensures Erase([1, 2, 1], 1) == [2, 1] && Without([1, 2, 1], 1) == [2]
  {
    var xs := [1, 2, 1];
    assert Find(xs, 1) == 0 && xs[1..] == [2, 1] && xs[..0] == [];
    SurvivorsFromFront([2, 1], 1);
    WithoutOne(1, 2);
    WithoutOne(1, 1);
    assert [2, 1][1..] == [1] && Without([2, 1], 1) == [2] + Without([1], 1);
  }

  /** Among distinct elements exactly the one found goes, and the others keep their order. */
  lemma EraseDistinct<T>(xs: seq<T>, x: T)
    requires Distinct(xs)
    ensures Erase(xs, x) == Without(xs, x)
    ensures x in xs ==> Find(xs, x) < |xs| && Erase(xs, x) == xs[..Find(xs, x)] + xs[Find(xs, x) + 1..]
    ensures x !in xs ==> Erase(xs, x) == xs
  {
    if x in xs {
      var k := Find(xs, x);
      var rest := xs[k + 1..];
      SafeWhenDistinct(rest, x);
      EraseExact(xs, x);
      SurvivorsExact(rest, x);
      WithoutAbsent(rest, x);
    } else {
      assert Find(xs, x) == |xs|;
      WithoutAbsent(xs, x);
    }
  }

  lemma SafeWhenDistinct<T>(rest: seq<T>, x: T)
    requires Distinct(rest) && x !in rest
    ensures SafeTail(rest, x)
  {
  }

  lemma EraseKeepsDistinct<T>(xs: seq<T>, x: T)
    requires Distinct(xs)
    ensures Distinct(Erase(xs, x))
    ensures (forall y | y in Erase(xs, x) :: y in xs && y != x) && (forall y | y in xs && y != x :: y in Erase(xs, x))
  {
    EraseDistinct(xs, x);
    forall y | y in Erase(xs, x) ensures y in xs && y != x {
      WithoutMember(xs, x, y);
    }
    forall y | y in xs && y != x ensures y in Erase(xs, x) {
      WithoutMember(xs, x, y);
    }
    if x in xs {
      DistinctGap(xs, Find(xs, x));
    }
  }

  lemma DistinctGap<T>(xs: seq<T>, k: nat)
    requires Distinct(xs) && k < |xs|
    ensures Distinct(xs[..k] + xs[k + 1..])
  {
    var ys := xs[..k] + xs[k + 1..];
    forall i, j | 0 <= i < j < |ys| ensures ys[i] != ys[j] {
      assert ys[i] == xs[if i < k then i else i + 1] && ys[j] == xs[if j < k then j else j + 1];
    }
  }
}
