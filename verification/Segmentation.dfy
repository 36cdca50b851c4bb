/** The greedy cut that memory_reserve makes of a run of pages into aligned blocks
    (segment_block_seq): it tiles the run, with the fewest blocks possible. */
module Segmentation {
  import opened Bits

  /** The largest order, up to the given one, whose aligned block starts at `start` and fits. */
  function SegmentOrder(start: nat, size: nat, order: nat): (k: nat)
    requires size > 0
    ensures k <= order && Aligned(start, k) && Pow2(k) <= size
  {
    if order == 0 || (Aligned(start, order) && size >= Pow2(order)) then order
    else SegmentOrder(start, size, order - 1)
  }

  lemma {:induction false} SegmentOrderLargest(start: nat, size: nat, order: nat, j: nat)
    requires size > 0 && SegmentOrder(start, size, order) < j <= order
    ensures !(Aligned(start, j) && Pow2(j) <= size)
  {
    if j < order {
      SegmentOrderLargest(start, size, order - 1, j);
    }
  }

  /** The orders of the blocks that the reservation loop cuts, in sequence. */
  function Greedy(start: nat, size: nat, top: nat): seq<nat>
    decreases size
  {
    if size == 0 then []
    else
      var k := SegmentOrder(start, size, top);
      [k] + Greedy(start + Pow2(k), size - Pow2(k), top)
  }

  /** Aligned blocks of these orders, end to end, cover the pages start .. start + size - 1. */
  predicate Tiling(start: nat, size: nat, orders: seq<nat>, top: nat)
    decreases |orders|
  {
    if orders == [] then size == 0
    else
      var k := orders[0];
      k <= top && Aligned(start, k) && Pow2(k) <= size && Tiling(start + Pow2(k), size - Pow2(k), orders[1..], top)
  }

  lemma {:induction false} GreedyTiles(start: nat, size: nat, top: nat)
    ensures Tiling(start, size, Greedy(start, size, top), top)
    decreases size
  {
    if size > 0 {
      var k := SegmentOrder(start, size, top);
      GreedyTiles(start + Pow2(k), size - Pow2(k), top);
    }
  }

  /** A tiling that enters an aligned block with tiles no larger than it leaves at its end. */
  lemma {:induction false} CutAt(pos: nat, size: nat, orders: seq<nat>, top: nat, b: nat, k: nat) returns (j: nat)
    requires Tiling(pos, size, orders, top) && Aligned(b, k) && b <= pos < b + Pow2(k) <= pos + size
    requires pos == b && orders != [] ==> orders[0] <= k
    ensures 1 <= j <= |orders|
    ensures Tiling(b + Pow2(k), pos + size - (b + Pow2(k)), orders[j..], top)
    decreases |orders|
  {
    var o := orders[0];
    if o > k {
      AlignedDown(pos, k, o);
      AlignedGap(b, pos, k);
    } else {
      BaseUnique(b, pos, k);
      BaseNested(pos, o, k);
      var next := pos + Pow2(o);
      if next == b + Pow2(k) {
        j := 1;
      } else {
        var j' := CutAt(next, size - Pow2(o), orders[1..], top, b, k);
        j := j' + 1;
        assert orders[1..][j'..] == orders[j..];
      }
    }
  }

  /** No tiling into aligned blocks up to the top order uses fewer blocks. */
  lemma {:induction false} GreedyFewest(start: nat, size: nat, top: nat, orders: seq<nat>)
    requires Tiling(start, size, orders, top)
    ensures |Greedy(start, size, top)| <= |orders|
    decreases size
  {
    if size > 0 {
      var k := SegmentOrder(start, size, top);
      if orders[0] > k { SegmentOrderLargest(start, size, top, orders[0]); }
      var j := CutAt(start, size, orders, top, start, k);
      GreedyFewest(start + Pow2(k), size - Pow2(k), top, orders[j..]);
    }
  }

  function Count(orders: seq<nat>, j: nat): nat {
    if orders == [] then 0 else (if orders[0] == j then 1 else 0) + Count(orders[1..], j)
  }

  /** What is left after a block that the size limited: smaller than it, and aligned to it. */
  lemma Limited(start: nat, size: nat, top: nat, m: nat)
    requires size > 0 && m == SegmentOrder(start, size, top) && m < top
    ensures Aligned(start + Pow2(m), m)
    ensures Aligned(start + Pow2(m), m + 1) || size - Pow2(m) < Pow2(m)
  {
    AlignedNext(start, m);
    AlignedEither(start, m);
    SegmentOrderLargest(start, size, top, m + 1);
  }

  /** On the way down every order occurs at most once. */
  lemma {:induction false} Descending(start: nat, size: nat, top: nat, k: nat)
    requires Aligned(start, k) && size < Pow2(k) && k <= top
    ensures |Greedy(start, size, top)| <= k
    ensures forall j: nat :: Count(Greedy(start, size, top), j) <= if j < k then 1 else 0
    decreases size
  {
    if size > 0 {
      var m := SegmentOrder(start, size, top);
      if m >= k { Pow2Mono(k, m); }
      AlignedDown(start, m + 1, k);
      SegmentOrderLargest(start, size, top, m + 1);
      AlignedNext(start, m);
      Descending(start + Pow2(m), size - Pow2(m), top, m);
      var rest := Greedy(start + Pow2(m), size - Pow2(m), top);
      assert Greedy(start, size, top)[1..] == rest;
    }
  }

  /** Each order below the top is used at most twice. */
  lemma {:induction false} AtMostTwice(start: nat, size: nat, top: nat, k: nat)
    requires Aligned(start, k) && k <= top
    ensures forall j: nat :: j < top ==> Count(Greedy(start, size, top), j) <= if j < k then 1 else 2
    decreases size
  {
    if size > 0 {
      var m := SegmentOrder(start, size, top);
      var start', size' := start + Pow2(m), size - Pow2(m);
      assert Greedy(start, size, top)[1..] == Greedy(start', size', top);
      if size < Pow2(k) {
        Descending(start, size, top, k);
      } else if m == top {
        AlignedNext(start, top);
        AtMostTwice(start', size', top, top);
      } else {
        Limited(start, size, top, m);
        if m < k { SegmentOrderLargest(start, size, top, k); }
        if Aligned(start', m + 1) {
          AtMostTwice(start', size', top, m + 1);
        } else {
          Descending(start', size', top, m);
        }
      }
    }
  }

  /** How many whole units fit, by repeated subtraction. */
  function Units(size: nat, unit: nat): nat
    requires unit > 0
  {
    if size < unit then 0 else 1 + Units(size - unit, unit)
  }

  lemma {:induction false} UnitsMono(a: nat, b: nat, unit: nat)
    requires a <= b && unit > 0
    ensures Units(a, unit) <= Units(b, unit)
  {
    if a >= unit {
      UnitsMono(a - unit, b - unit, unit);
    }
  }

  lemma {:induction false} UnitsIsDiv(size: nat, unit: nat)
    requires unit > 0
    ensures Units(size, unit) == size / unit
  {
    if size >= unit {
      UnitsIsDiv(size - unit, unit);
      assert size == unit * (Units(size - unit, unit) + 1) + (size - unit) % unit;
      ModIs(size, unit, Units(size - unit, unit) + 1, (size - unit) % unit);
    }
  }

  lemma {:induction false} GreedyLength(start: nat, size: nat, top: nat, k: nat)
    requires Aligned(start, k) && k <= top
    ensures |Greedy(start, size, top)| <= (top - k) + top + Units(size, Pow2(top))
    decreases size
  {
    if size > 0 {
      var m := SegmentOrder(start, size, top);
      var start', size' := start + Pow2(m), size - Pow2(m);
      UnitsMono(size', size, Pow2(top));
      if size < Pow2(k) {
        Descending(start, size, top, k);
      } else if m == top {
        AlignedNext(start, top);
        GreedyLength(start', size', top, top);
      } else {
        Limited(start, size, top, m);
        if m < k { SegmentOrderLargest(start, size, top, k); }
        if Aligned(start', m + 1) {
          GreedyLength(start', size', top, m + 1);
        } else {
          Descending(start', size', top, m);
        }
      }
    }
  }

  /** Wherever a run starts, it is cut into at most 2 * top + size / 2^top blocks: with the
      top order 8, into at most 16 and one for every 256 pages. */
  lemma GreedyShort(start: nat, size: nat, top: nat)
    ensures |Greedy(start, size, top)| <= 2 * top + size / Pow2(top)
    ensures forall j: nat :: j < top ==> Count(Greedy(start, size, top), j) <= 2
  {
    GreedyLength(start, size, top, 0);
    UnitsIsDiv(size, Pow2(top));
    AtMostTwice(start, size, top, 0);
  }
}
