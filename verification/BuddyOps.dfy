/** The operations of page_allocator.c as functions of the state, and what they achieve:
    allocation, freeing, their cancellation, and reservation. */
module BuddyOps {
  import opened Machine
  import opened Bits
  import opened LinkedNodes
  import opened BuddyState
  import opened BuddyTheory

  // ----- page_alloc -----

  /** The smallest order from `order` on whose list is not empty. */
  function FirstFit(lists: seq<seq<nat>>, order: nat): (r: Option<nat>)
    ensures r.Some? ==> order <= r.value < |lists| && lists[r.value] != []
    ensures r.Some? ==> forall k :: order <= k < r.value ==> lists[k] == []
    ensures r.None? ==> forall k :: order <= k < |lists| ==> lists[k] == []
    decreases |lists| - order
  {
    if order >= |lists| then None
    else if lists[order] != [] then Some(order)
    else FirstFit(lists, order + 1)
  }

  /** The split loop: block t of order cur keeps its lower half until it has the wanted order. */
  function SplitDown(a: Pages, t: nat, cur: nat, order: nat): (r: Pages)
    requires a.Sized() && t < |a.status| && order <= cur <= a.Top()
    ensures r.Sized() && |r.status| == |a.status| && |r.lists| == |a.lists|
    decreases cur
  {
    if cur == order then a.Mark(t, OCCUPIED)
    else
      var l: nat := cur - 1;
      AlignedDown(|a.status|, l + 1, |a.lists|);
      XorBound(t, l, |a.status|);
      var b := Xor(t, Pow2(l));
      SplitDown(a.Mark(t, l).Mark(b, l).Insert(b, l), t, l, order)
  }

  lemma SplitDone(a: Pages, t: nat, order: nat)
    requires a.Sized() && t < |a.status| && order <= a.Top()
    ensures SplitDown(a, t, order, order) == a.Mark(t, OCCUPIED)
  {
  }

  /** page_alloc, once the order is known: the new state and the block found. */
  ghost function AllocOrder(a: Pages, order: nat): (r: (Pages, Option<nat>))
    requires Valid(a)
  {
    ListsInRange(a);
    var fit := FirstFit(a.lists, order);
    if fit.None? then (a, None)
    else
      var t := a.lists[fit.value][0];
      assert t in a.lists[fit.value];
      (SplitDown(a.(lists := a.lists[fit.value := a.lists[fit.value][1..]]), t, fit.value, order), Some(t))
  }

  lemma ListsInRange(a: Pages)
    requires Valid(a)
    ensures a.Sized()
    ensures forall k: nat :: k < |a.lists| ==> forall p: nat :: p in a.lists[k] ==> p < |a.status| && a.status[p] == k
  {
    assert Inv(a, Ord(a));
    forall k: nat | k < |a.lists|
      ensures forall p: nat :: p in a.lists[k] ==> p < |a.status| && a.status[p] == k
    {
      assert Listed(a, k, NULL);
    }
  }

  /** States that agree but for one block x, taken in `more` and free in `less`. */
  lemma OneMoreTaken(less: Pages, more: Pages, lo: seq<nat>, mo: seq<nat>, x: Block)
    requires Inv(less, lo) && Inv(more, mo) && |less.status| == |more.status| && x.head < |more.status|
    requires more.status[x.head] == x.kind && mo[x.head] == x.order
    requires IsTaken(x.kind) && !IsTaken(less.status[x.head])
    requires forall p: nat :: p < |less.status| && p != x.head ==>
               (IsTaken(less.status[p]) <==> IsTaken(more.status[p]))
    requires forall p: nat :: p < |less.status| && p != x.head && IsTaken(less.status[p]) ==>
               less.status[p] == more.status[p] && lo[p] == mo[p]
    ensures TakenBlocks(more) == TakenBlocks(less) + {x}
    ensures x !in TakenBlocks(less) && TakenBlocks(less) == TakenBlocks(more) - {x}
  {
    ExtentFromMarks(less, lo, Ord(less));
    ExtentFromMarks(more, mo, Ord(more));
    assert x in TakenBlocks(more);
    forall y: Block
      ensures y in TakenBlocks(more) <==> y in TakenBlocks(less) || y == x
    {
      if y in TakenBlocks(more) && y.head == x.head { assert y == x; }
      if y in TakenBlocks(less) && y.head != x.head { assert IsTaken(more.status[y.head]); }
    }
  }

  /** No other taken block has its head inside the block in hand. */
  lemma TakenOutside(a: Pages, ord: seq<nat>, t: nat)
    requires Held(a, ord, t)
    ensures forall p: nat :: p < |ord| && p != t && IsTaken(a.status[p]) ==> !(t <= p < t + Pow2(ord[t]))
  {
    forall p: nat | t < p < t + Pow2(ord[t]) && p < |ord|
      ensures a.status[p] == GROUPED
    {
      InteriorGrouped(a, ord, t, p, t);
    }
  }

  /** One round of the split loop, as the code writes it. */
  lemma SplitRound(a: Pages, ord: seq<nat>, t: nat, order: nat) returns (a1: Pages, o1: seq<nat>, b: nat)
    requires Held(a, ord, t) && order < ord[t]
    ensures var l: nat := ord[t] - 1;
            && b == Xor(t, Pow2(l)) && t < b < |ord| && a.status[b] == GROUPED
            && a1 == a.Mark(t, l).Mark(b, l).Insert(b, l) && a1.Sized() && |o1| == |ord| && l <= a1.Top()
            && Held(a1, o1, t) && o1[t] == l && o1 == SetRun(ord, t, l + 1, l)
            && SplitDown(a, t, l + 1, order) == SplitDown(a1, t, l, order)
  {
    var l: nat := ord[t] - 1;
    var keep;
    o1, keep, b := Split(a, ord, t, true);
    Pow2Mono(l, l + 1);
    a1 := a.Mark(t, l).Mark(b, l).Insert(b, l);
    Restale(a.Mark(b, l).Insert(b, l), o1, t, l);
    assert a1 == a.Mark(b, l).Insert(b, l).Mark(t, l);
  }

  /** Splitting down to an order: one taken block at t, the rest of its old block free. */
  lemma {:induction false} SplitDownKeeps(a: Pages, ord: seq<nat>, t: nat, order: nat) returns (ord': seq<nat>)
    requires Held(a, ord, t) && order <= ord[t]
    ensures var r := SplitDown(a, t, ord[t], order);
            && Inv(r, ord') && ord'[t] == order && r.status[t] == OCCUPIED
            && (forall p: nat :: p < |ord| && p != t && IsTaken(a.status[p]) ==>
                  r.status[p] == a.status[p] && ord'[p] == ord[p])
            && (forall p: nat :: p < |ord| && p != t && IsTaken(r.status[p]) ==> IsTaken(a.status[p]))
    decreases ord[t]
  {
    if ord[t] == order {
      PutTaken(a, ord, t, OCCUPIED);
      ord' := ord;
    } else {
      var a1, o1, b := SplitRound(a, ord, t, order);
      ord' := SplitDownKeeps(a1, o1, t, order);
      TakenOutside(a, ord, t);
    }
  }

  /** The status word of the block in hand is free to change. */
  lemma Restale(a: Pages, ord: seq<nat>, t: nat, v: int)
    requires Held(a, ord, t)
    ensures Held(a.Mark(t, v), ord, t)
  {
    var a' := a.Mark(t, v);
    forall p: nat | p < |ord| && p != t
      ensures Marked(a'.status, ord, p) && Lonely(a', p, t)
    {
      assert Marked(a.status, ord, p) && Lonely(a, p, t);
    }
    forall k: nat | k < |a.lists|
      ensures Listed(a', k, t)
    {
      assert Listed(a, k, t);
    }
  }

  /** The first block of a list is a free head of that order; popping it picks it up. */
  lemma PopIsTake(a: Pages, k: nat)
    requires Valid(a) && k < |a.lists| && a.lists[k] != []
    ensures var t := a.lists[k][0];
            && t < |a.status| && Ord(a)[t] == k && a.status[t] == k && Aligned(t, k)
            && a.(lists := a.lists[k := a.lists[k][1..]]) == a.Remove(t, k)
            && Held(a.Remove(t, k), Ord(a), t)
  {
    var t := a.lists[k][0];
    assert t in a.lists[k];
    assert Listed(a, k, NULL) && Marked(a.status, Ord(a), t);
    Take(a, Ord(a), t);
  }

  /** The search of page_alloc, in the terms of its loop. */
  lemma AllocFound(a: Pages, order: nat)
    requires Valid(a)
    ensures var fit := FirstFit(a.lists, order);
            match fit
            case None => AllocOrder(a, order) == (a, None)
            case Some(k) =>
              var t: nat := a.lists[k][0];
              && t < |a.status| && a.status[t] == k == Ord(a)[t] && a.Sized()
              && a.(lists := a.lists[k := a.lists[k][1..]]) == a.Remove(t, k)
              && Held(a.Remove(t, k), Ord(a), t)
              && AllocOrder(a, order).0 == SplitDown(a.Remove(t, k), t, k, order)
              && AllocOrder(a, order).1 == Some(t)
  {
    ListsInRange(a);
    var fit := FirstFit(a.lists, order);
    if fit.Some? { PopIsTake(a, fit.value); }
  }

  /** page_alloc keeps the invariant.  It fails exactly when no aligned run of 2^order free pages
      exists; otherwise it adds one taken block, of just that order, inside a free block that
      is a smallest one of sufficient order. */
  lemma AllocTheorem(a: Pages, order: nat)
    requires Valid(a)
    ensures Valid(AllocOrder(a, order).0)
    ensures var (r, got) := AllocOrder(a, order);
            && |r.status| == |a.status| && |r.lists| == |a.lists|
            && (got.None? <==> order > a.Top() || forall b: nat :: !FreeRun(a, b, order))
            && (got.None? ==> r == a)
            && (got.Some? ==>
                  && FreeRun(a, got.value, order)
                  && TakenBlocks(r) == TakenBlocks(a) + {Block(got.value, order, OCCUPIED)}
                  && Block(got.value, order, OCCUPIED) !in TakenBlocks(a)
                  && forall p: nat :: p < |a.status| && FreePage(a, p) && Ord(a)[p] >= order ==>
                       Ord(a)[p] >= Ord(a)[got.value])
  {
    ListsInRange(a);
    var ord := Ord(a);
    var fit := FirstFit(a.lists, order);
    forall p: nat | p < |a.status| && FreePage(a, p) && ord[p] >= order
      ensures fit.Some? && fit.value <= ord[p]
    {
      var h := Head(a, p);
      InBlock(ord, p);
      assert Whole(ord, p) && Marked(a.status, ord, h) && Listed(a, ord[p], NULL);
      assert h in a.lists[ord[p]];
    }
    if fit.None? {
      if order <= a.Top() {
        forall b: nat
          ensures !FreeRun(a, b, order)
        {
          if FreeRun(a, b, order) {
            assert FreePage(a, b);
            FreeRunInOneBlock(a, b, order);
          }
        }
      }
    } else {
      var k := fit.value;
      PopIsTake(a, k);
      var t := a.lists[k][0];
      var ord' := SplitDownKeeps(a.Remove(t, k), ord, t, order);
      var r := AllocOrder(a, order).0;
      OneMoreTaken(a, r, ord, ord', Block(t, order, OCCUPIED));
      assert FreePage(a, t);
      FreeBlockIsRun(a, t);
      AlignedDown(t, order, k);
      Pow2Mono(order, k);
      assert FreeRun(a, t, order);
    }
  }

  /** A page that the split loop lists: the upper half of what was left of the block at t. */
  ghost predicate UpperHalf(t: nat, cur: nat, order: nat, p: nat, j: nat) {
    order <= j < cur && p == t + Pow2(j)
  }

  /** One round of the split loop, for a block at a multiple of its size. */
  lemma SplitOnce(a: Pages, t: nat, cur: nat, order: nat)
    requires a.Sized() && t < |a.status| && order < cur <= a.Top() && Aligned(t, cur)
    ensures var l: nat := cur - 1; var b := t + Pow2(l);
            && b < |a.status| && Aligned(t, l) && a.Mark(t, l).Mark(b, l).Insert(b, l).Sized()
            && SplitDown(a, t, cur, order) == SplitDown(a.Mark(t, l).Mark(b, l).Insert(b, l), t, l, order)
  {
    hide Xor, Aligned, Base, Pow2;
    var l: nat := cur - 1;
    AlignedDown(|a.status|, l + 1, |a.lists|);
    XorBound(t, l, |a.status|);
    UpperBuddy(t, l);
  }

  /** The split loop lists the upper half at every order below the block's own. */
  lemma {:induction false} SplitLists(a: Pages, t: nat, cur: nat, order: nat)
    requires a.Sized() && t < |a.status| && order <= cur <= a.Top() && Aligned(t, cur)
    ensures var r := SplitDown(a, t, cur, order);
            forall j: nat :: j < |a.lists| ==>
              r.lists[j] == if order <= j < cur then [t + Pow2(j)] + a.lists[j] else a.lists[j]
    decreases cur
  {
    hide Xor, Aligned, Base, Pow2, SplitDown;
    if cur > order {
      SplitOnce(a, t, cur, order);
      var l: nat := cur - 1;
      var b := t + Pow2(l);
      var m := a.Mark(t, l).Mark(b, l).Insert(b, l);
      assert m.lists == a.lists[l := [b] + a.lists[l]];
      SplitLists(m, t, l, order);
    } else {
      SplitDone(a, t, order);
    }
  }

  /** It marks them, and marks the lowest part, of the order asked for, as handed out. */
  lemma {:induction false} SplitMarks(a: Pages, t: nat, cur: nat, order: nat)
    requires a.Sized() && t < |a.status| && order <= cur <= a.Top() && Aligned(t, cur)
    ensures var r := SplitDown(a, t, cur, order);
            && r.status[t] == OCCUPIED
            && (forall p: nat, j: nat :: p < |a.status| && UpperHalf(t, cur, order, p, j) ==> r.status[p] == j)
            && (forall p: nat :: p < |a.status| && p != t && (forall j: nat :: !UpperHalf(t, cur, order, p, j)) ==>
                  r.status[p] == a.status[p])
    decreases cur
  {
    hide Xor, Aligned, Base, Pow2, SplitDown;
    if cur > order {
      SplitOnce(a, t, cur, order);
      var l: nat := cur - 1;
      var b := t + Pow2(l);
      var m := a.Mark(t, l).Mark(b, l).Insert(b, l);
      SplitMarks(m, t, l, order);
      var r := SplitDown(m, t, l, order);
      Lower(t, l, order, b);
      forall p: nat, j: nat | p < |a.status| && UpperHalf(t, cur, order, p, j)
        ensures r.status[p] == j
      {
        if j < l { assert UpperHalf(t, l, order, p, j); }
      }
      assert UpperHalf(t, cur, order, b, l);
      forall p: nat | p < |a.status| && p != t && forall j: nat :: !UpperHalf(t, cur, order, p, j)
        ensures r.status[p] == a.status[p]
      {
        forall j: nat
          ensures !UpperHalf(t, l, order, p, j)
        {
          assert !UpperHalf(t, cur, order, p, j);
        }
      }
    } else {
      SplitDone(a, t, order);
    }
  }

  /** The upper half is none of the smaller ones. */
  lemma Lower(t: nat, l: nat, order: nat, p: nat)
    requires p == t + Pow2(l)
    ensures Pow2(l) > 0 && forall j: nat :: !UpperHalf(t, l, order, p, j)
  {
    forall j: nat
      ensures !UpperHalf(t, l, order, p, j)
    {
      if j < l { Pow2Mono(j + 1, l); }
    }
  }

  lemma UpperBuddy(t: nat, l: nat)
    requires Aligned(t, l + 1)
    ensures Aligned(t, l) && Xor(t, Pow2(l)) == t + Pow2(l)
  {
    AlignedDown(t, l, l + 1);
    BuddyIs(t, l);
  }

  /** Block t is the first of the first list from the order on that is not empty, which has order k. */
  ghost predicate CutFrom(a: Pages, order: nat, k: nat, t: nat) {
    order <= k < |a.lists| && a.lists[k] != [] && t == a.lists[k][0] && forall j :: order <= j < k ==> a.lists[j] == []
  }

  /** The lists when a block of order k has left and been cut down to the order. */
  ghost predicate ListsCut(a: Pages, r: Pages, order: nat, k: nat, t: nat) {
    && |r.lists| == |a.lists| && k < |a.lists| && a.lists[k] != []
    && forall j: nat :: j < |a.lists| ==>
         r.lists[j] == if j == k then a.lists[k][1..]
                       else if order <= j < k then [t + Pow2(j)] + a.lists[j] else a.lists[j]
  }

  /** And the status words. */
  ghost predicate MarksCut(a: Pages, r: Pages, order: nat, k: nat, t: nat) {
    && |r.status| == |a.status| && t < |a.status| && r.status[t] == OCCUPIED
    && (forall p: nat, j: nat :: p < |a.status| && UpperHalf(t, k, order, p, j) ==> r.status[p] == j)
    && (forall p: nat :: p < |a.status| && p != t && (forall j: nat :: !UpperHalf(t, k, order, p, j)) ==>
          r.status[p] == a.status[p])
  }

  /** What page_alloc does to every list and every status word: the first block of the first list that
      is not empty, from the order asked for on, is cut, its lowest part is handed out, and the upper
      halves go to the fronts of their lists. */
  lemma AllocExact(a: Pages, order: nat) returns (k: nat)
    requires Valid(a) && AllocOrder(a, order).1.Some?
    ensures var (r, got) := AllocOrder(a, order); var t := got.value;
            CutFrom(a, order, k, t) && ListsCut(a, r, order, k, t) && MarksCut(a, r, order, k, t)
  {
    hide SplitDown, FreePage, TakenBlocks, Aligned, Inv, Held, Pow2, UpperHalf, Without;
    AllocFound(a, order);
    k := FirstFit(a.lists, order).value;
    var t: nat := a.lists[k][0];
    PopIsTake(a, k);
    var m := a.Remove(t, k);
    SplitLists(m, t, k, order);
    SplitMarks(m, t, k, order);
  }

  /** How many blocks of the top order are free. */
  function TopBlocks(a: Pages): nat {
    if a.lists == [] then 0 else |a.lists[|a.lists| - 1]|
  }

  lemma {:induction false} SplitKeepsTop(a: Pages, t: nat, cur: nat, order: nat)
    requires a.Sized() && t < |a.status| && order <= cur <= a.Top()
    ensures TopBlocks(SplitDown(a, t, cur, order)) == TopBlocks(a)
    decreases cur
  {
    hide Xor;
    if cur > order {
      var l: nat := cur - 1;
      AlignedDown(|a.status|, l + 1, |a.lists|);
      XorBound(t, l, |a.status|);
      var b := Xor(t, Pow2(l));
      SplitKeepsTop(a.Mark(t, l).Mark(b, l).Insert(b, l), t, l, order);
    }
  }

  /** page_alloc takes at most one of them, and succeeds while there is one. */
  lemma AllocFromTop(a: Pages, order: nat)
    requires Valid(a)
    ensures var (r, got) := AllocOrder(a, order);
            && |r.lists| == |a.lists| && TopBlocks(r) + 1 >= TopBlocks(a)
            && (order <= a.Top() && TopBlocks(a) > 0 ==> got.Some?)
  {
    hide SplitDown;
    ListsInRange(a);
    var fit := FirstFit(a.lists, order);
    if fit.Some? {
      var k := fit.value;
      assert a.lists[k][0] in a.lists[k];
      SplitKeepsTop(a.(lists := a.lists[k := a.lists[k][1..]]), a.lists[k][0], k, order);
    }
  }

  // ----- page_free -----

  /** The merge loop of page_free, from the given level on. */
  function FreeLoop(a: Pages, t: nat, level: nat): (r: Pages)
    requires a.Sized() && t < |a.status| && level <= a.Top()
    ensures r.Sized() && |r.status| == |a.status| && |r.lists| == |a.lists|
    decreases a.Top() - level
  {
    AlignedDown(|a.status|, level + 1, |a.lists|);
    XorBound(t, level, |a.status|);
    var b := Xor(t, Pow2(level));
    if b < t && a.status[b] == GROUPED then a
    else if !(a.status[b] == level || a.status[b] == GROUPED) || level == a.Top() then
      a.Mark(t, level).Insert(t, level)
    else
      var a1 := if a.status[b] >= 0 then a.Remove(b, level) else a;
      var low, high := if t > b then b else t, if t > b then t else b;
      FreeLoop(a1.Mark(high, GROUPED), low, level + 1)
  }

  /** page_free of the page with index t. */
  function FreeAt(a: Pages, t: nat): (r: Pages)
    requires a.Sized() && t < |a.status|
    ensures r.Sized() && |r.status| == |a.status| && |r.lists| == |a.lists|
  {
    if a.status[t] != OCCUPIED then a else FreeLoop(a, t, 0)
  }

  /** Below the order of the block in hand, the loop only climbs over the block's own pages. */
  lemma {:induction false} FreeClimbs(a: Pages, ord: seq<nat>, t: nat, level: nat)
    requires Held(a, ord, t) && level <= ord[t]
    ensures FreeLoop(a, t, level) == FreeLoop(a, t, ord[t])
    decreases ord[t] - level
  {
    if level < ord[t] {
      var b := t + Pow2(level);
      AlignedDown(t, level, ord[t]);
      AlignedDown(t, level + 1, ord[t]);
      BuddyIs(t, level);
      Pow2Mono(level, ord[t]);
      InteriorGrouped(a, ord, t, b, t);
      assert a.Mark(b, GROUPED) == a;
      FreeClimbs(a, ord, t, level + 1);
    }
  }

  /** From its own order on, the loop merges the block in hand as far as possible. */
  lemma {:induction false} FreeMerges(a: Pages, ord: seq<nat>, t: nat) returns (ord': seq<nat>)
    requires Held(a, ord, t)
    ensures var r := FreeLoop(a, t, ord[t]);
            && Inv(r, ord') && !IsTaken(r.status[t])
            && (forall p: nat :: p < |ord| && p != t ==> (IsTaken(r.status[p]) <==> IsTaken(a.status[p])))
            && (forall p: nat :: p < |ord| && p != t && IsTaken(a.status[p]) ==>
                  r.status[p] == a.status[p] && ord'[p] == ord[p])
    decreases a.Top() - ord[t]
  {
    hide Lonely, Xor, Base;
    var l := ord[t];
    var b := Xor(t, Pow2(l));
    BuddyHeads(a, ord, t, l, t);
    if a.status[b] != l || l == a.Top() {
      PutFree(a, ord, t);
      ord' := ord;
    } else {
      var o1, low, high := Merge(a, ord, t);
      var a1 := a.Remove(b, l).Mark(high, GROUPED);
      TakenOutsidePair(a, ord, t, low, high);
      ord' := FreeMerges(a1, o1, low);
    }
  }

  /** No other taken block has its head inside the block in hand or its free buddy. */
  lemma TakenOutsidePair(a: Pages, ord: seq<nat>, t: nat, low: nat, high: nat)
    requires Held(a, ord, t) && BuddyFree(a, t, ord[t])
    requires var b := Xor(t, Pow2(ord[t])); low == Min(t, b) && high == low + Pow2(ord[t]) && (high == t || high == b)
    ensures forall p: nat :: p < |ord| && p != t && IsTaken(a.status[p]) ==>
              p != low && p != high && !(low <= p < low + Pow2(ord[t] + 1))
  {
    var b := Xor(t, Pow2(ord[t]));
    assert Marked(a.status, ord, b);
    forall p: nat | low < p < low + Pow2(ord[t] + 1) && p < |ord| && p != high && p != t && p != b
      ensures a.status[p] == GROUPED
    {
      if p < high { InteriorGrouped(a, ord, low, p, t); } else { InteriorGrouped(a, ord, high, p, t); }
    }
  }

  /** One round of the merge loop.  The branch that reports a grouped smaller buddy is never
      taken; the loop stops only at the block's own order; and otherwise it either climbs
      within the block or merges it with a free buddy. */
  lemma FreeRound(a: Pages, ord: seq<nat>, t: nat, level: nat) returns (o1: seq<nat>)
    requires Held(a, ord, t) && level <= ord[t]
    ensures var b := Xor(t, Pow2(level));
            && b < |ord| && b != t && !(b < t && a.status[b] == GROUPED)
            && if !(a.status[b] == level || a.status[b] == GROUPED) || level == a.Top()
               then level == ord[t] && o1 == ord && !On(a.lists, t)
               else
                 && (a.status[b] >= 0 ==> b in a.lists[level])
                 && |o1| == |ord| && level + 1 <= o1[Min(t, b)] <= a.Top()
                 && var a1 := if a.status[b] >= 0 then a.Remove(b, level) else a;
                    Held(a1.Mark(if t > b then t else b, GROUPED), o1, Min(t, b))
  {
    var b := Xor(t, Pow2(level));
    OffLists(a, ord, t, t);
    o1 := ord;
    if level < ord[t] {
      AlignedDown(t, level, ord[t]);
      AlignedDown(t, level + 1, ord[t]);
      BuddyIs(t, level);
      Pow2Mono(level, ord[t]);
      InteriorGrouped(a, ord, t, b, t);
      assert a.Mark(b, GROUPED) == a;
    } else {
      BuddyHeads(a, ord, t, level, t);
      if a.status[b] == level && level < a.Top() {
        var low, high;
        o1, low, high := Merge(a, ord, t);
        BaseBounds(low, level + 1);
        assert Listed(a, level, t);
      }
    }
  }

  /** page_free of an allocated head frees exactly its block, whose order it recovers from the
      marks, and nothing else; of any other page it changes nothing. */
  lemma FreeTheorem(a: Pages, t: nat)
    requires Valid(a) && t < |a.status|
    ensures var r := FreeAt(a, t);
            && Valid(r)
            && (a.status[t] != OCCUPIED ==> r == a)
            && (a.status[t] == OCCUPIED ==>
                  && Block(t, Ord(a)[t], OCCUPIED) in TakenBlocks(a)
                  && TakenBlocks(r) == TakenBlocks(a) - {Block(t, Ord(a)[t], OCCUPIED)})
  {
    var ord := Ord(a);
    if a.status[t] == OCCUPIED {
      assert Marked(a.status, ord, t);
      Take(a, ord, t);
      FreeClimbs(a, ord, t, 0);
      var ord' := FreeMerges(a, ord, t);
      OneMoreTaken(FreeAt(a, t), a, ord', ord, Block(t, ord[t], OCCUPIED));
    }
  }

  /** The free block that is the other half of the block of order j + 1 around page t. */
  function OtherHalf(t: nat, j: nat): nat {
    Xor(Base(t, j), Pow2(j))
  }

  /** The lists when the block of order k around page t has merged up to order m: the free buddies have
      left theirs, and the merged block is the first of its own. */
  ghost predicate ListsMerged(a: Pages, r: Pages, t: nat, k: nat, m: nat) {
    && |r.lists| == |a.lists| && k <= m < |a.lists|
    && (forall j: nat :: k <= j < m ==> OtherHalf(t, j) in a.lists[j])
    && forall j: nat :: j < |a.lists| ==>
         r.lists[j] == if j == m then [Base(t, m)] + a.lists[m]
                       else if k <= j < m then Without(a.lists[j], OtherHalf(t, j)) else a.lists[j]
  }

  lemma {:induction false} MergeLists(a: Pages, ord: seq<nat>, t: nat) returns (m: nat)
    requires Held(a, ord, t)
    ensures ListsMerged(a, FreeLoop(a, t, ord[t]), t, ord[t], m)
    decreases a.Top() - ord[t]
  {
    hide Lonely, Xor, Base, Without, ListsMerged;
    var l := ord[t];
    var b := Xor(t, Pow2(l));
    BuddyHeads(a, ord, t, l, t);
    HandAligned(a, ord, t);
    if a.status[b] != l || l == a.Top() {
      m := l;
      NotMerged(a, t, l);
    } else {
      var o1, low, high := Merge(a, ord, t);
      assert Listed(a, l, t);
      m := MergeLists(a.Remove(b, l).Mark(high, GROUPED), o1, low);
      MergedOn(a, b, high, FreeLoop(a, t, l), t, low, l, m);
    }
  }

  lemma NotMerged(a: Pages, t: nat, l: nat)
    requires Aligned(t, l) && t < |a.status| && l < |a.lists|
    ensures ListsMerged(a, a.Mark(t, l).Insert(t, l), t, l, l)
  {
    BaseUniqueAt(t, l);
  }

  /** From the next order on, a block's lower half or its buddy's is the base of both. */
  lemma SameBases(t: nat, l: nat, low: nat)
    requires Aligned(t, l) && low == Min(t, Xor(t, Pow2(l)))
    ensures Base(t, l) == t && forall j: nat :: j > l ==> Base(low, j) == Base(t, j)
  {
    hide Base, Xor;
    Buddy(t, l);
    BaseUniqueAt(t, l);
    forall j: nat | j > l
      ensures Base(low, j) == Base(t, j)
    {
      BaseNested(t, l + 1, j);
    }
  }

  lemma BaseUniqueAt(t: nat, l: nat)
    requires Aligned(t, l)
    ensures Base(t, l) == t
  {
  }

  /** One merge before the others. */
  lemma MergedOn(a: Pages, b: nat, high: nat, r: Pages, t: nat, low: nat, l: nat, m: nat)
    requires Aligned(t, l) && b == Xor(t, Pow2(l)) && low == Min(t, b) && high < |a.status| && l < |a.lists|
    requires b in a.lists[l] && ListsMerged(a.Remove(b, l).Mark(high, GROUPED), r, low, l + 1, m)
    ensures ListsMerged(a, r, t, l, m)
  {
    hide Base, Xor, Without, Pow2;
    SameBases(t, l, low);
    assert OtherHalf(t, l) == b;
    forall j: nat | l < j
      ensures OtherHalf(low, j) == OtherHalf(t, j)
    {
    }
  }

  /** What page_free does to every list: the free buddies of the block leave theirs, order by order, and
      the block that comes of the merging goes to the front of its own.  The status words follow from
      the blocks that are taken then. */
  lemma FreeExact(a: Pages, t: nat) returns (m: nat)
    requires Valid(a) && t < |a.status| && a.status[t] == OCCUPIED
    ensures ListsMerged(a, FreeAt(a, t), t, Ord(a)[t], m)
  {
    hide FreeLoop, ListsMerged;
    assert Marked(a.status, Ord(a), t);
    Take(a, Ord(a), t);
    FreeClimbs(a, Ord(a), t, 0);
    m := MergeLists(a, Ord(a), t);
  }

  // ----- allocating and freeing again -----

  /** While the lists between are empty, splitting down and merging up again changes nothing. */
  lemma {:induction false} SplitThenMerge(a: Pages, ord: seq<nat>, t: nat, order: nat)
    requires Held(a, ord, t) && order <= ord[t]
    requires forall k :: order <= k < ord[t] ==> a.lists[k] == []
    ensures FreeLoop(SplitDown(a, t, ord[t], order), t, 0) == FreeLoop(a.Mark(t, OCCUPIED), t, ord[t])
    decreases ord[t]
  {
    hide Lonely, Xor, Base;
    var cur := ord[t];
    if cur == order {
      Restale(a, ord, t, OCCUPIED);
      FreeClimbs(a.Mark(t, OCCUPIED), ord, t, 0);
    } else {
      var l: nat := cur - 1;
      var a1, o1, b := SplitRound(a, ord, t, order);
      SplitThenMerge(a1, o1, t, order);
      MergeBack(a, a1, t, b, l);
    }
  }

  lemma MergeBack(a: Pages, a1: Pages, t: nat, b: nat, l: nat)
    requires a.Sized() && t < b < |a.status| && b == Xor(t, Pow2(l)) && l < a.Top()
    requires a.status[b] == GROUPED && a.lists[l] == []
    requires a1 == a.Mark(t, l).Mark(b, l).Insert(b, l)
    ensures FreeLoop(a1.Mark(t, OCCUPIED), t, l) == FreeLoop(a.Mark(t, OCCUPIED), t, l + 1)
  {
    var m := a1.Mark(t, OCCUPIED);
    assert m.status[b] == l && m.lists[l] == [b];
    assert Without([b], b) == [];
    assert m.Remove(b, l).lists == a.lists;
    assert m.Remove(b, l).Mark(b, GROUPED).status == a.Mark(t, OCCUPIED).status;
  }

  /** A successful page_alloc undone at once by page_free restores the state: every status
      word and the order of every free list. */
  lemma AllocFreeIdentity(a: Pages, order: nat)
    requires Valid(a)
    requires AllocOrder(a, order).1.Some?
    ensures var (r, got) := AllocOrder(a, order);
            got.value < |r.status| && FreeAt(r, got.value) == a
  {
    ListsInRange(a);
    var ord := Ord(a);
    var k := FirstFit(a.lists, order).value;
    var t := a.lists[k][0];
    PopIsTake(a, k);
    var a0 := a.Remove(t, k);
    var r := AllocOrder(a, order).0;
    var o1 := SplitDownKeeps(a0, ord, t, order);
    SplitThenMerge(a0, ord, t, order);
    var m := a0.Mark(t, OCCUPIED);
    Restale(a0, ord, t, OCCUPIED);
    BuddyHeads(m, ord, t, k, t);
    assert Lonely(a, t, NULL);
    assert FreeLoop(m, t, k) == m.Mark(t, k).Insert(t, k);
    assert m.Mark(t, k).status == a.status;
    assert a.lists[k] == [t] + a.lists[k][1..];
    assert m.Mark(t, k).Insert(t, k).lists == a.lists;
  }
}
