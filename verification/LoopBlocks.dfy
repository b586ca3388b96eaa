/**
 The way parallelize_loop cuts an index range into blocks.
 Indices are mathematical integers: every bound computed lies between the two ends of the range.
 */
module LoopBlocks {

  /** The range [lo, hi) cut into num blocks of size indices, the last one taking the remainder. */
  datatype Split = Split(lo: int, hi: int, size: nat, num: nat) {

    ghost predicate Valid() {
      lo < hi && 1 <= size && 1 <= num && size * num <= hi - lo
    }

    function Start(t: nat): int {
      t * size + lo
    }

    function End(t: nat): int {
      if t == num - 1 then hi else (t + 1) * size + lo
    }

    /** The number of the block an index belongs to. */
    ghost function BlockOf(i: int): (t: nat)
      requires Valid() && lo <= i < hi
      ensures t < num
    {
      if (i - lo) / size < num then (i - lo) / size else num - 1
    }
  }

  function BlockSize(total: nat, num: nat): nat
    requires num > 0
  {
    total / num
  }

  /** The cut for two distinct ends, in either order, and a positive number of wanted blocks. */
  function MakeSplit(first: int, after: int, wanted: nat): (sp: Split)
    requires first != after && wanted > 0
    ensures sp.lo == (if first < after then first else after) && sp.hi == (if first < after then after else first)
  {
    var lo, hi := if first < after then first else after, if first < after then after else first;
    var total := hi - lo;
    var size := BlockSize(total, wanted);
    if size == 0 then Split(lo, hi, 1, if total > 1 then total else 1) else Split(lo, hi, size, wanted)
  }

  /**
   The cut is well formed: at most the wanted number of blocks, and as many as there are indices for. With enough
   indices the blocks have the largest size that many of them can have; with fewer, one index each.
   */
  lemma MakeSplitValid(first: int, after: int, wanted: nat)
    requires first != after && wanted > 0
    ensures var sp := MakeSplit(first, after, wanted);
      var total := sp.hi - sp.lo;
      && sp.Valid() && sp.num == (if total < wanted then total else wanted)
      && (if total < wanted then sp.size == 1 else sp.size * wanted <= total < (sp.size + 1) * wanted)
  {
    var total := if first < after then after - first else first - after;
    BlockSizeBounds(total, wanted);
    assert (BlockSize(total, wanted) + 1) * wanted == BlockSize(total, wanted) * wanted + wanted;
  }

  lemma BlockSizeBounds(total: nat, wanted: nat)
    requires wanted > 0
    ensures var size := BlockSize(total, wanted);
      && size * wanted <= total < size * wanted + wanted
      && (if size == 0 then total < wanted else wanted <= total)
  {
    DivisionRoundsDown(total, wanted);
    if total / wanted == 0 {
      SmallRange(total, wanted);
    } else {
      MulMonotone(1, total / wanted, wanted);
    }
  }

  lemma DivisionRoundsDown(a: nat, b: nat)
    requires b > 0
    ensures a / b * b <= a < a / b * b + b
  {
  }

  lemma SmallRange(total: nat, wanted: nat)
    requires 0 < wanted && total / wanted == 0
    ensures total < wanted
  {
    DivisionRoundsDown(total, wanted);
  }

  lemma MulMonotone(a: nat, b: nat, k: nat)
    requires a <= b
    ensures a * k <= b * k
  {
  }

  /** An index of the range is inside block t exactly when t is its block: blocks are disjoint and cover. */
  lemma BlockOfExact(sp: Split, i: int, t: nat)
    requires sp.Valid() && sp.lo <= i < sp.hi && t < sp.num
    ensures sp.Start(t) <= i < sp.End(t) <==> t == sp.BlockOf(i)
  {
    var d, q := i - sp.lo, (i - sp.lo) / sp.size;
    DivisionRoundsDown(d, sp.size);
    if q < t {
      MulMonotone(q + 1, t, sp.size);
    } else if t < q {
      MulMonotone(t + 1, q, sp.size);
    }
    assert (q + 1) * sp.size == q * sp.size + sp.size;
  }

  /** Every bound that is computed lies inside the range, no block is empty, and all but the last have the same size. */
  lemma BlockInside(sp: Split, t: nat)
    requires sp.Valid() && t < sp.num
    ensures sp.lo <= sp.Start(t) < sp.End(t) <= sp.hi
    ensures if t < sp.num - 1 then sp.End(t) - sp.Start(t) == sp.size else sp.End(t) == sp.hi
  {
    MulMonotone(t + 1, sp.num, sp.size);
    assert (t + 1) * sp.size == t * sp.size + sp.size;
  }

  /** The blocks of a cut, in the order they are handed out. */
  function BlockList(sp: Split): (blocks: seq<(int, int)>)
    ensures |blocks| == sp.num
    ensures forall t :: 0 <= t < |blocks| ==> blocks[t] == (sp.Start(t), sp.End(t))
  {
    seq(sp.num, (t: nat) => (sp.Start(t), sp.End(t)))
  }

  /** Blocks are laid end to end. */
  ghost predicate Chained(blocks: seq<(int, int)>, lo: int, hi: int) {
    && |blocks| > 0
    && blocks[0].0 == lo
    && blocks[|blocks| - 1].1 == hi
    && (forall t :: 0 <= t < |blocks| ==> blocks[t].0 < blocks[t].1)
    && (forall t :: 0 < t < |blocks| ==> blocks[t].0 == blocks[t - 1].1)
  }

  /** The blocks of a cut, taken in order, are laid end to end from one end of the range to the other. */
  lemma BlocksChain(sp: Split)
    requires sp.Valid()
    ensures Chained(BlockList(sp), sp.lo, sp.hi)
  {
    var blocks := BlockList(sp);
    forall t: nat | t < |blocks| ensures blocks[t].0 < blocks[t].1 {
      BlockInside(sp, t);
    }
    assert blocks[0].0 == sp.lo;
    assert blocks[|blocks| - 1].1 == sp.hi;
    forall t: nat | 0 < t < |blocks| ensures blocks[t].0 == blocks[t - 1].1 {
      assert t - 1 != sp.num - 1;
    }
  }

  /**
   The body of parallelize_loop up to the final wait: the blocks it pushes, in order.
   A wanted count of zero stands for the number of threads; the source divides by the result.
   */
  method HandOutBlocks(first: int, after: int, wanted: nat, threadCount: nat) returns (blocks: seq<(int, int)>)
    requires first != after ==> wanted > 0 || threadCount > 0
    ensures first == after ==> blocks == []
    ensures first != after ==> blocks == BlockList(MakeSplit(first, after, if wanted == 0 then threadCount else wanted))
  {
    blocks := [];
    var theFirst, last := first, after;
    if theFirst == last {
      return;
    }
    if last < theFirst {
      theFirst, last := last, theFirst;
    }
    last := last - 1;
    var num := wanted;
    if num == 0 {
      num := threadCount;
    }
    var total := last - theFirst + 1;
    var size := BlockSize(total, num);
    if size == 0 {
      size := 1;
      num := if total > 1 then total else 1;
    }
    blocks := PushBlocks(theFirst, last, size, num);
  }

  /** The pushing loop. */
  method PushBlocks(theFirst: int, last: int, size: nat, num: nat) returns (blocks: seq<(int, int)>)
    ensures blocks == BlockList(Split(theFirst, last + 1, size, num))
  {
    blocks := [];
    for t := 0 to num
      invariant blocks == BlockList(Split(theFirst, last + 1, size, num))[..t]
    {
      var start := t * size + theFirst;
      var end := if t == num - 1 then last + 1 else (t + 1) * size + theFirst;
      blocks := blocks + [(start, end)];
    }
  }
}
