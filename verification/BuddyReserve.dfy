/** Finding a block's head by clearing low bits, as `is_allocated` does, and carving a wholly
    free region out of the blocks it lies in, as `memory_reserve` does. */
module BuddyReserve {
  import opened Machine
  import opened Bits
  import opened LinkedNodes
  import opened BuddyState
  import opened BuddyTheory
  import opened BuddyOps
  import opened Segmentation

  lemma {:induction false} AndBelow(x: nat, y: nat)
    ensures And(x, y) <= y
  {
    if x > 0 && y > 0 {
      AndBelow(x / 2, y / 2);
    }
  }

  /** `while(status[p] == GROUPED) p &= p - 1` */
  function FindHead(status: seq<int>, p: nat): (h: nat)
    requires p < |status|
    ensures h <= p
    decreases p
  {
    if status[p] != GROUPED || p == 0 then p
    else
      AndBelow(p, p - 1);
      FindHead(status, And(p, p - 1))
  }

  /** From any page the walk ends at the head of the block that holds it. */
  lemma {:induction false} FindHeadIs(a: Pages, p: nat)
    requires Valid(a) && p < |a.status|
    ensures FindHead(a.status, p) == Head(a, p)
    decreases p
  {
    var ord := Ord(a);
    var k := ord[p];
    assert Marked(a.status, ord, p) && Whole(ord, p);
    if a.status[p] == GROUPED {
      BaseBounds(p, k);
      var q := And(p, p - 1);
      ClearLowest(p, k);
      assert ord[q] == k;
      FindHeadIs(a, q);
    }
  }

  /** is_allocated, for a page index. */
  predicate IsAllocated(a: Pages, p: nat)
    requires p < |a.status|
  {
    a.status[FindHead(a.status, p)] == OCCUPIED
  }

  /** is_allocated is true exactly inside the blocks that page_alloc handed out. */
  lemma IsAllocatedTheorem(a: Pages, p: nat)
    requires Valid(a) && p < |a.status|
    ensures IsAllocated(a, p) <==>
              exists x :: x in TakenBlocks(a) && x.kind == OCCUPIED && x.head <= p < x.head + Pow2(x.order)
  {
    FindHeadIs(a, p);
    if IsAllocated(a, p) {
      var x := TakenOwner(a, p);
    }
    if x :| x in TakenBlocks(a) && x.kind == OCCUPIED && x.head <= p < x.head + Pow2(x.order) {
      TakenCovers(a, x, p);
    }
  }

  // ----- memory_reserve -----

  /** The split walk: from the free block `parent` of order cur down to the sub-block of order
      sub that begins at start.  The node removed in each round but the first is on no list. */
  function Carve(a: Pages, parent: nat, cur: nat, sub: nat, start: nat): (r: Pages)
    requires a.Sized() && parent < |a.status| && cur <= a.Top()
    ensures r.Sized() && |r.status| == |a.status| && |r.lists| == |a.lists|
    decreases cur
  {
    if cur <= sub then a
    else
      var l: nat := cur - 1;
      AlignedDown(|a.status|, l + 1, |a.lists|);
      XorBound(parent, l, |a.status|);
      var b := Xor(parent, Pow2(l));
      var keep, other := if b <= start then b else parent, if b <= start then parent else b;
      Carve(a.Remove(parent, cur).Mark(other, l).Insert(other, l), keep, l, sub, start)
  }

  lemma CarveDone(a: Pages, p: nat, sub: nat, start: nat)
    requires a.Sized() && p < |a.status| && sub <= a.Top()
    ensures Carve(a, p, sub, sub, start) == a
  {
  }

  lemma {:induction false} CarveKeeps(a: Pages, ord: seq<nat>, parent: nat, sub: nat, start: nat)
    returns (ord': seq<nat>)
    requires parent < |ord| && ord[parent] <= a.Top() && sub <= ord[parent]
    requires Held(a.Remove(parent, ord[parent]), ord, parent)
    requires Aligned(start, sub) && parent <= start < parent + Pow2(ord[parent])
    ensures start < |ord|
    ensures var r := Carve(a, parent, ord[parent], sub, start);
            && Held(r.Remove(start, sub), ord', start) && ord'[start] == sub
            && (forall p: nat :: p < |ord| && p != parent && IsTaken(a.status[p]) ==>
                  p != start && r.status[p] == a.status[p] && ord'[p] == ord[p])
            && (forall p: nat :: p < |ord| && p != parent && p != start && IsTaken(r.status[p]) ==>
                   IsTaken(a.status[p]))
            && (parent != start ==> !IsTaken(r.status[parent]))
    decreases ord[parent]
  {
    BlockFits(|ord|, a.Top(), parent, ord[parent]);
    if ord[parent] == sub {
      AlignedDown(parent, sub, ord[parent]);
      BaseUnique(parent, start, sub);
      TakenOutside(a.Remove(parent, sub), ord, parent);
      ord' := ord;
    } else {
      var a1, o1, keep := CarveStep(a, ord, parent, sub, start);
      ord' := CarveKeeps(a1, o1, keep, sub, start);
    }
  }

  /** One round of the walk: the half that holds start stays in hand. */
  lemma CarveStep(a: Pages, ord: seq<nat>, parent: nat, sub: nat, start: nat)
    returns (a1: Pages, o1: seq<nat>, keep: nat)
    requires parent < |ord| && sub < ord[parent] <= a.Top()
    requires Held(a.Remove(parent, ord[parent]), ord, parent)
    requires Aligned(start, sub) && parent <= start < parent + Pow2(ord[parent])
    ensures var l: nat := ord[parent] - 1;
            && keep < |ord| == |o1| && o1[keep] == l <= a1.Top() && |a1.lists| == |a.lists|
            && Held(a1.Remove(keep, l), o1, keep)
            && keep <= start < keep + Pow2(l)
            && Carve(a, parent, l + 1, sub, start) == Carve(a1, keep, l, sub, start)
            && var b := Xor(parent, Pow2(l)); var other := if b <= start then parent else b;
               && b < |ord| && keep == (if b <= start then b else parent)
               && a1 == a.Remove(parent, l + 1).Mark(other, l).Insert(other, l) && a1.Sized()
               && !On(a.Remove(parent, l + 1).lists, other) && !On(a1.lists, keep)
    ensures |a1.status| == |a.status| && (keep == parent || !IsTaken(a1.status[parent]))
    ensures forall p: nat :: p < |ord| && p != parent && IsTaken(a.status[p]) ==>
              p != keep && a1.status[p] == a.status[p] && o1[p] == ord[p] && !(parent <= p < parent + Pow2(ord[parent]))
    ensures forall p: nat :: p < |ord| && p != parent && IsTaken(a1.status[p]) ==> IsTaken(a.status[p])
  {
    hide Lonely, Xor, Base, BuddyFree;
    var l: nat := ord[parent] - 1;
    var a0 := a.Remove(parent, l + 1);
    var b := Xor(parent, Pow2(l));
    var other;
    o1, keep, other := Split(a0, ord, parent, b > start);
    Pow2Mono(l, l + 1);
    a1 := a0.Mark(other, l).Insert(other, l);
    assert keep !in a1.lists[l] by { assert Listed(a1, l, keep); }
    WithoutAbsent(a1.lists[l], keep);
    assert a1.Remove(keep, l) == a1;
    TakenOutside(a0, ord, parent);
    OffLists(a0, ord, parent, other);
    OffLists(a1, o1, keep, keep);
  }

  /** The lists when the free block of order k around page t has been cut down to order sub: it has left
      its own, and the half that page t is not in is the first of its list, at every order below. */
  ghost predicate ListsCarved(a: Pages, r: Pages, t: nat, k: nat, sub: nat) {
    && |r.lists| == |a.lists| && k < |a.lists|
    && forall j: nat :: j < |a.lists| ==>
         r.lists[j] == if j == k && sub < k then Without(a.lists[k], Base(t, k))
                       else if sub <= j < k then [OtherHalf(t, j)] + a.lists[j] else a.lists[j]
  }

  lemma {:induction false} CarveLists(a: Pages, ord: seq<nat>, parent: nat, sub: nat, start: nat)
    requires parent < |ord| && ord[parent] <= a.Top() && sub <= ord[parent]
    requires Held(a.Remove(parent, ord[parent]), ord, parent)
    requires Aligned(start, sub) && parent <= start < parent + Pow2(ord[parent])
    ensures parent < |a.status| && a.Sized()
    ensures ListsCarved(a, Carve(a, parent, ord[parent], sub, start), start, ord[parent], sub)
    decreases ord[parent]
  {
    hide Lonely, Xor, Base, BuddyFree, Pow2, Without, ListsCarved;
    var k := ord[parent];
    HandAligned(a.Remove(parent, k), ord, parent);
    if k == sub {
      NoneCarved(a, parent, start, sub);
    } else {
      var l: nat := k - 1;
      var a1, o1, keep := CarveStep(a, ord, parent, sub, start);
      CarveLists(a1, o1, keep, sub, start);
      HandAligned(a1.Remove(keep, l), o1, keep);
      BaseUnique(keep, start, l);
      BaseUnique(parent, start, k);
      KeptHalf(parent, keep, l, start);
      CarvedOn(a, a1, parent, keep, Carve(a1, keep, l, sub, start), start, l, sub);
    }
  }

  lemma NoneCarved(a: Pages, parent: nat, start: nat, sub: nat)
    requires a.Sized() && parent < |a.status| && sub <= a.Top()
    ensures ListsCarved(a, Carve(a, parent, sub, sub, start), start, sub, sub)
  {
  }

  /** Of the two halves of a block, one has page start and the other is its buddy. */
  lemma KeptHalf(parent: nat, keep: nat, l: nat, start: nat)
    requires Aligned(parent, l + 1) && Aligned(keep, l) && Base(start, l) == keep
    requires var b := Xor(parent, Pow2(l)); keep == if b <= start then b else parent
    ensures var b := Xor(parent, Pow2(l)); (if b <= start then parent else b) == OtherHalf(start, l)
  {
    hide Base, Xor, Pow2;
    AlignedDown(parent, l, l + 1);
    Buddy(parent, l);
  }

  lemma CarvedOn(a: Pages, a1: Pages, parent: nat, keep: nat, r: Pages, start: nat, l: nat, sub: nat)
    requires l + 1 < |a.lists| && parent < |a.status| && sub <= l && Base(start, l + 1) == parent
    requires OtherHalf(start, l) < |a.status| && !On(a1.lists, keep) && Base(start, l) == keep
    requires a1 == a.Remove(parent, l + 1).Mark(OtherHalf(start, l), l).Insert(OtherHalf(start, l), l)
    requires ListsCarved(a1, r, start, l, sub)
    ensures ListsCarved(a, r, start, l + 1, sub)
  {
    hide Base, Xor, Pow2, Without;
    assert keep !in a1.lists[l];
    WithoutAbsent(a1.lists[l], keep);
  }

  /** One round of the reservation loop. */
  ghost function ReserveOne(a: Pages, start: nat, sub: nat): (r: Pages)
    requires Valid(a) && FreeRun(a, start, sub) && sub <= a.Top()
  {
    var h := FindHead(a.status, start);
    assert 0 <= a.status[h] <= a.Top() && a.Sized() by {
      FindHeadIs(a, start);
      assert FreePage(a, start) && Inv(a, Ord(a));
      InBlock(Ord(a), start);
      assert Marked(a.status, Ord(a), h);
    }
    Carve(a, h, a.status[h], sub, start).Mark(start, RESERVED).Remove(start, sub)
  }

  /** The search of memory_reserve: the walk from start finds the free block around it. */
  lemma ReserveFound(a: Pages, start: nat, sub: nat)
    requires Valid(a) && FreeRun(a, start, sub) && sub <= a.Top()
    ensures var h := FindHead(a.status, start); var ord := Ord(a);
            && sub <= a.status[h] == ord[h] <= a.Top() && h in a.lists[ord[h]] && a.Sized()
            && h <= start < h + Pow2(ord[h]) && start < |ord|
            && Held(a.Remove(h, ord[h]), ord, h)
            && ReserveOne(a, start, sub) == Carve(a, h, ord[h], sub, start).Mark(start, RESERVED).Remove(start, sub)
  {
    var ord := Ord(a);
    var h := Head(a, start);
    FindHeadIs(a, start);
    FreeRunInOneBlock(a, start, sub);
    assert FreePage(a, start);
    InBlock(ord, start);
    assert Whole(ord, start) && Marked(a.status, ord, h) && Listed(a, ord[h], NULL);
    Take(a, ord, h);
  }

  lemma ReserveOneTheorem(a: Pages, start: nat, sub: nat)
    requires Valid(a) && FreeRun(a, start, sub) && sub <= a.Top()
    ensures var r := ReserveOne(a, start, sub);
            && Valid(r) && |r.status| == |a.status| && |r.lists| == |a.lists|
            && TakenBlocks(r) == TakenBlocks(a) + {Block(start, sub, RESERVED)}
            && Block(start, sub, RESERVED) !in TakenBlocks(a)
  {
    var ord := Ord(a);
    var h := Head(a, start);
    var k := ord[start];
    FindHeadIs(a, start);
    FreeRunInOneBlock(a, start, sub);
    assert FreePage(a, start);
    InBlock(ord, start);
    assert Whole(ord, start) && Marked(a.status, ord, h);
    Take(a, ord, h);
    var ord' := CarveKeeps(a, ord, h, sub, start);
    var m := Carve(a, h, k, sub, start);
    var r := ReserveOne(a, start, sub);
    assert r == m.Remove(start, sub).Mark(start, RESERVED);
    PutTaken(m.Remove(start, sub), ord', start, RESERVED);
    OneMoreTaken(a, r, ord, ord', Block(start, sub, RESERVED));
  }

  /** What a round of memory_reserve does to every list: the free block around the segment leaves its
      own, and at every order between the segment's and the block's, the half that is not needed goes
      to the front. */
  lemma ReserveLists(a: Pages, start: nat, sub: nat)
    requires Valid(a) && FreeRun(a, start, sub) && sub <= a.Top()
    ensures start < |a.status|
    ensures var r := ReserveOne(a, start, sub); var k := Ord(a)[start];
            && sub <= k < |a.lists| && |r.lists| == |a.lists| && Base(start, k) in a.lists[k]
            && forall j: nat :: j < |a.lists| ==>
                 r.lists[j] == if j == k then Without(a.lists[k], Base(start, k))
                               else if sub <= j < k then [OtherHalf(start, j)] + a.lists[j] else a.lists[j]
  {
    hide Carve, Lonely, Xor, Pow2, Without, FindHead;
    var ord := Ord(a);
    var h := FindHead(a.status, start);
    ReserveFound(a, start, sub);
    FindHeadIs(a, start);
    FreeRunInOneBlock(a, start, sub);
    var k := ord[start];
    InBlock(ord, start);
    CarveLists(a, ord, h, sub, start);
    var ord' := CarveKeeps(a, ord, h, sub, start);
    var m := Carve(a, h, k, sub, start);
    if sub < k {
      NotListed(m, ord', start, sub, a, k);
    } else {
      CarveDone(a, h, sub, start);
      HandAligned(a.Remove(h, k), ord, h);
      BaseUnique(h, start, k);
      BaseUniqueAt(start, k);
    }
  }

  /** Cut out of a larger block, the segment is on no list. */
  lemma NotListed(m: Pages, ord: seq<nat>, start: nat, sub: nat, a: Pages, k: nat)
    requires sub < k < |a.lists| && ListsCarved(a, m, start, k, sub) && sub < |m.lists|
    requires Valid(a) && start < |a.status| && Ord(a)[start] == k && Aligned(start, sub) && FreePage(a, start)
    ensures Without(m.lists[sub], start) == m.lists[sub]
  {
    hide Base, Xor, Pow2, Without;
    assert Listed(a, sub, NULL) && Marked(a.status, Ord(a), start);
    BaseUniqueAt(start, sub);
    Buddy(start, sub);
    assert start !in m.lists[sub];
    WithoutAbsent(m.lists[sub], start);
  }

  /** The blocks of a tiling, as reserved blocks. */
  function Tiles(start: nat, orders: seq<nat>): set<Block>
    decreases |orders|
  {
    if orders == [] then {} else {Block(start, orders[0], RESERVED)} + Tiles(start + Pow2(orders[0]), orders[1..])
  }

  ghost predicate FreeRange(a: Pages, start: nat, size: nat)
    requires Valid(a)
  {
    start + size <= |a.status| && forall p: nat :: start <= p < start + size ==> FreePage(a, p)
  }

  /** A run clear of the new block stays free. */
  lemma StillFree(a: Pages, r: Pages, x: Block, p: nat)
    requires Valid(a) && Valid(r) && |a.status| == |r.status| && TakenBlocks(r) == TakenBlocks(a) + {x}
    requires p < |a.status| && FreePage(a, p) && !(x.head <= p < x.head + Pow2(x.order))
    ensures FreePage(r, p)
  {
    if !FreePage(r, p) {
      var y := TakenOwner(r, p);
      TakenCovers(a, y, p);
    }
  }

  /** segment_block_seq for the rest of the region */
  ghost function SubOrder(a: Pages, start: nat, size: nat): (sub: nat)
    requires Valid(a) && FreeRange(a, start, size) && size > 0
    ensures sub <= a.Top() && Pow2(sub) <= size && FreeRun(a, start, sub)
  {
    assert Inv(a, Ord(a));
    SegmentOrder(start, size, a.Top())
  }

  lemma ReserveStep(a: Pages, start: nat, size: nat)
    requires Valid(a) && FreeRange(a, start, size) && size > 0
    ensures var sub := SubOrder(a, start, size); var r := ReserveOne(a, start, sub);
            && Valid(r) && |r.status| == |a.status| && |r.lists| == |a.lists|
            && TakenBlocks(r) == TakenBlocks(a) + {Block(start, sub, RESERVED)}
            && FreeRange(r, start + Pow2(sub), size - Pow2(sub))
  {
    var sub := SubOrder(a, start, size);
    ReserveOneTheorem(a, start, sub);
    var r := ReserveOne(a, start, sub);
    forall p: nat | start + Pow2(sub) <= p < start + size
      ensures FreePage(r, p)
    {
      StillFree(a, r, Block(start, sub, RESERVED), p);
    }
  }

  /** The reservation loop over `size` pages from `start`, all of them free. */
  ghost function ReserveRange(a: Pages, start: nat, size: nat): (r: Pages)
    requires Valid(a) && FreeRange(a, start, size)
    decreases size
  {
    if size == 0 then a
    else
      ReserveStep(a, start, size);
      var sub := SubOrder(a, start, size);
      ReserveRange(ReserveOne(a, start, sub), start + Pow2(sub), size - Pow2(sub))
  }

  ghost function TopOf(a: Pages): nat
    requires Valid(a)
  {
    assert Inv(a, Ord(a));
    a.Top()
  }

  /** The first round of the loop, and the rest. */
  lemma ReserveRound(a: Pages, start: nat, size: nat) returns (sub: nat, r: Pages)
    requires Valid(a) && FreeRange(a, start, size) && size > 0
    ensures sub == SegmentOrder(start, size, TopOf(a)) && Pow2(sub) <= size
    ensures Valid(r) && |r.status| == |a.status| && |r.lists| == |a.lists|
    ensures TakenBlocks(r) == TakenBlocks(a) + {Block(start, sub, RESERVED)}
    ensures FreeRange(r, start + Pow2(sub), size - Pow2(sub))
    ensures ReserveRange(a, start, size) == ReserveRange(r, start + Pow2(sub), size - Pow2(sub))
    ensures TopOf(r) == TopOf(a)
  {
    hide Carve, Held;
    ReserveStep(a, start, size);
    sub := SubOrder(a, start, size);
    r := ReserveOne(a, start, sub);
  }

  lemma ReserveRoundIs(a: Pages, start: nat, size: nat)
    requires Valid(a) && FreeRange(a, start, size) && size > 0
    ensures var sub := SegmentOrder(start, size, TopOf(a)); var next := start + Pow2(sub);
            && FreeRun(a, start, sub) && sub <= TopOf(a) == |a.lists| - 1 && start < next <= start + size
            && var r := ReserveOne(a, start, sub);
               && Valid(r) && FreeRange(r, next, start + size - next)
               && ReserveRange(a, start, size) == ReserveRange(r, next, start + size - next)
  {
    hide Carve, Held;
    ReserveStep(a, start, size);
    var sub := SubOrder(a, start, size);
  }

  lemma ReserveNone(a: Pages, start: nat)
    requires Valid(a) && FreeRange(a, start, 0)
    ensures ReserveRange(a, start, 0) == a && Tiles(start, Greedy(start, 0, TopOf(a))) == {}
  {
  }

  /** memory_reserve of a free region keeps the invariant and takes exactly the blocks of the
      greedy tiling of the region, each from inside one free block. */
  lemma {:induction false} ReserveTheorem(a: Pages, start: nat, size: nat)
    requires Valid(a) && FreeRange(a, start, size)
    ensures var r := ReserveRange(a, start, size);
            && Valid(r) && |r.status| == |a.status| && |r.lists| == |a.lists|
            && TakenBlocks(r) == TakenBlocks(a) + Tiles(start, Greedy(start, size, TopOf(a)))
    decreases size
  {
    hide *;
    if size == 0 {
      ReserveNone(a, start);
    } else {
      var sub, r := ReserveRound(a, start, size);
      ReserveTheorem(r, start + Pow2(sub), size - Pow2(sub));
      TilesFirst(start, size, TopOf(a));
    }
  }

  lemma TilesFirst(start: nat, size: nat, top: nat)
    requires size > 0
    ensures var sub := SegmentOrder(start, size, top);
            Tiles(start, Greedy(start, size, top)) ==
            {Block(start, sub, RESERVED)} + Tiles(start + Pow2(sub), Greedy(start + Pow2(sub), size - Pow2(sub), top))
  {
    var sub := SegmentOrder(start, size, top);
    var rest := Greedy(start + Pow2(sub), size - Pow2(sub), top);
    assert Greedy(start, size, top) == [sub] + rest;
    assert ([sub] + rest)[1..] == rest;
  }

  /** After the reservation exactly the pages of the region have stopped being free. */
  lemma ReservedPages(a: Pages, start: nat, size: nat, p: nat)
    requires Valid(a) && FreeRange(a, start, size) && p < |a.status|
    ensures var r := ReserveRange(a, start, size);
            Valid(r) && |r.status| == |a.status| && (FreePage(r, p) <==> FreePage(a, p) && !(start <= p < start + size))
    decreases size
  {
    if size > 0 {
      var sub, r := ReserveRound(a, start, size);
      ReservedPages(r, start + Pow2(sub), size - Pow2(sub), p);
      var x := Block(start, sub, RESERVED);
      if start <= p < start + Pow2(sub) {
        TakenCovers(r, x, p);
      } else if FreePage(a, p) {
        StillFree(a, r, x, p);
      } else {
        var y := TakenOwner(a, p);
        TakenCovers(r, y, p);
      }
    }
  }
}
