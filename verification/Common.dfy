/** Definitions every part of the model shares. */
module Common {

  datatype Option<+T> = None | Some(value: T)

  function AtLeastZero(n: int): nat {
    if n >= 0 then n else 0
  }

  ghost predicate Distinct<T>(xs: seq<T>) {
    forall i, j :: 0 <= i < j < |xs| ==> xs[i] != xs[j]
  }

  /** The first position that matches, or the end. */
  function FindFirst<T>(xs: seq<T>, matches: T -> bool): (k: nat)
    ensures k <= |xs| && (k < |xs| ==> matches(xs[k])) && forall i :: 0 <= i < k ==> !matches(xs[i])
  {
    if xs == [] || matches(xs[0]) then 0 else FindFirst(xs[1..], matches) + 1
  }
}
