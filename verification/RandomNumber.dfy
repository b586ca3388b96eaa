/** The rejection sampler of the shop. RAND_MAX is a parameter; a draw of rand() is any number from 0 to RAND_MAX. */
module RandomNumber {

  predicate Accepted(x: int, n: nat, randMax: nat)
    requires n > 0
  {
    !(x >= randMax - randMax % n)
  }

  function Value(x: int, min: int, n: nat): int
    requires n > 0
  {
    min + x % n
  }

  /**
   How many values the sampler draws from: the size of the range. With the bounds the wrong way round it is the size of
   a range that starts at min all the same, because a remainder does not depend on the sign of the divisor.
   */
  function Size(min: int, max: int): nat {
    if max - min + 1 >= 0 then max - min + 1 else -(max - min + 1)
  }

  lemma RemainderIgnoresSign(a: nat, n: int)
    requires n != 0
    ensures a % n == a % (if n > 0 then n else -n)
  {
  }

  /**
   The sampler on a stream of draws: it takes the first that is accepted, and no earlier one.
   A size of zero is divided by.
   */
  method GetRandomNumber(min: int, max: int, randMax: nat, draws: seq<nat>) returns (value: int, used: nat)
    requires Size(min, max) > 0
    requires exists k :: 0 <= k < |draws| && Accepted(draws[k], Size(min, max), randMax)
    ensures 0 < used <= |draws| && Accepted(draws[used - 1], Size(min, max), randMax)
    ensures forall k :: 0 <= k < used - 1 ==> !Accepted(draws[k], Size(min, max), randMax)
    ensures value == min + draws[used - 1] % Size(min, max)
    ensures min <= value < min + Size(min, max) && (value <= max <==> min <= max)
  {
    var n := max - min + 1;
    ghost var size := Size(min, max);
    RemainderIgnoresSign(randMax, n);
    var remainder := randMax % n;
    var x := draws[0];
    used := 1;
    while x >= randMax - remainder
      invariant 0 < used <= |draws| && x == draws[used - 1]
      invariant forall k :: 0 <= k < used - 1 ==> !Accepted(draws[k], size, randMax)
      decreases |draws| - used
    {
      assert !Accepted(x, size, randMax);
      x := draws[used];
      used := used + 1;
    }
    RemainderIgnoresSign(x, n);
    value := min + x % n;
  }

  /** The accepted draws that give a value. */
  ghost function Hits(v: int, min: int, n: nat, randMax: nat): set<nat>
    requires n > 0
  {
    set x: nat | x <= randMax && Accepted(x, n, randMax) && Value(x, min, n) == v
  }

  /** Numbers below q * n with remainder c. */
  ghost function Class(q: nat, n: nat, c: nat): (s: set<nat>)
    requires c < n
    ensures |s| == q
    ensures forall x: nat :: x in s <==> x < q * n && x % n == c
  {
    if q == 0 then {}
    else
      var before, x := Class(q - 1, n, c), (q - 1) * n + c;
      OneMorePeriod(q - 1, n, c, x);
      assert x !in before;
      before + {x}
  }

  /** The next period adds one number, x. */
  lemma OneMorePeriod(q: nat, n: nat, c: nat, x: nat)
    requires c < n && x == q * n + c
    ensures forall y: nat :: y < (q + 1) * n && y % n == c <==> (y < q * n && y % n == c) || y == x
  {
    Expand(q, n);
    DivisionIsUnique(x, n, q, c);
    forall y: nat ensures y < (q + 1) * n && y % n == c <==> (y < q * n && y % n == c) || y == x {
      if q * n <= y < (q + 1) * n {
        DivisionIsUnique(y, n, q, y - q * n);
      }
    }
  }

  lemma Expand(q: int, n: int)
    ensures (q + 1) * n == q * n + n
  {
  }

  lemma AtLeastOnce(k: int, n: nat)
    requires k >= 1
    ensures k * n >= n
  {
  }

  lemma DivisionIsUnique(x: nat, n: nat, q: nat, r: nat)
    requires r < n && x == q * n + r
    ensures x / n == q && x % n == r
  {
    var q' := x / n;
    assert x == q' * n + x % n;
    assert (q' - q) * n == q' * n - q * n;
    assert (q - q') * n == q * n - q' * n;
    if q' > q {
      AtLeastOnce(q' - q, n);
    } else if q > q' {
      AtLeastOnce(q - q', n);
    }
  }

  /** Below the bound of accepted draws lie as many full periods as there are below RAND_MAX. */
  lemma FullPeriods(n: nat, randMax: nat)
    requires n > 0
    ensures randMax - randMax % n == randMax / n * n
    ensures (randMax - randMax % n) / n == randMax / n
  {
    DivisionIsUnique(randMax / n * n, n, randMax / n, 0);
  }

  /** The draws that hit the value at offset c from min are those of its class below the bound. */
  lemma HitsAreClass(c: nat, min: int, n: nat, randMax: nat)
    requires c < n
    ensures Hits(min + c, min, n, randMax) == Class(randMax / n, n, c)
  {
    FullPeriods(n, randMax);
    forall x: nat ensures x in Hits(min + c, min, n, randMax) <==> x in Class(randMax / n, n, c) {
    }
  }

  lemma NoHits(v: int, min: int, n: nat, randMax: nat)
    requires n > 0 && !(min <= v < min + n)
    ensures Hits(v, min, n, randMax) == {}
  {
    forall x: nat ensures x !in Hits(v, min, n, randMax) {
      assert 0 <= x % n < n;
    }
  }

  /** Every value of the range is hit by the same number of accepted draws, and no other value by any. */
  lemma SamplerIsUniform(v: int, min: int, max: int, randMax: nat)
    requires Size(min, max) > 0
    ensures var n := Size(min, max);
      |Hits(v, min, n, randMax)| == if min <= v < min + n then (randMax - randMax % n) / n else 0
    ensures min <= max ==> Size(min, max) == max - min + 1
  {
    var n := Size(min, max);
    if min <= v < min + n {
      HitsAreClass(v - min, min, n, randMax);
      FullPeriods(n, randMax);
    } else {
      NoHits(v, min, n, randMax);
    }
  }

  /** Some draw is accepted exactly when the range has no more than RAND_MAX values. */
  lemma LoopCanStopIff(n: nat, randMax: nat)
    requires n > 0
    ensures (exists x: nat :: x <= randMax && Accepted(x, n, randMax)) <==> n <= randMax
  {
    if n <= randMax {
      assert randMax - randMax % n >= n by {
        assert randMax - randMax % n == randMax / n * n && randMax / n >= 1;
      }
      assert Accepted(0, n, randMax);
    }
  }
}
