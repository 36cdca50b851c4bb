/** What the invariant says about the whole page array: extents are recovered from the marks
    alone, free space is maximally merged, and the taken blocks determine every status word. */
module BuddyTheory {
  import opened Machine
  import opened Bits
  import opened BuddyState

  ghost predicate Valid(a: Pages) {
    exists ord :: Inv(a, ord)
  }

  /** The order of every page's block. */
  ghost function Ord(a: Pages): (ord: seq<nat>)
    requires Valid(a)
    ensures Inv(a, ord) && |ord| == |a.status|
  {
    var ord :| Inv(a, ord);
    ord
  }

  /** The head of page p's block. */
  ghost function Head(a: Pages, p: nat): (h: nat)
    requires Valid(a) && p < |a.status|
    ensures h <= p
  {
    BaseBounds(p, Ord(a)[p]);
    Base(p, Ord(a)[p])
  }

  predicate IsTaken(v: int) {
    v == OCCUPIED || v == RESERVED
  }

  /** A block that is handed out or reserved. */
  datatype Block = Block(head: nat, order: nat, kind: int)

  ghost function TakenBlocks(a: Pages): set<Block>
    requires Valid(a)
  {
    set h: nat | h < |a.status| && IsTaken(a.status[h]) :: Block(h, Ord(a)[h], a.status[h])
  }

  ghost predicate FreePage(a: Pages, p: nat)
    requires Valid(a) && p < |a.status|
  {
    a.status[Head(a, p)] >= 0
  }

  /** An aligned run of 2^k free pages. */
  ghost predicate FreeRun(a: Pages, b: nat, k: nat)
    requires Valid(a)
  {
    Aligned(b, k) && b + Pow2(k) <= |a.status| && forall p: nat :: b <= p < b + Pow2(k) ==> FreePage(a, p)
  }

  // ----- extents from marks -----

  /** The page after a block heads the next one. */
  lemma NextIsHead(a: Pages, ord: seq<nat>, h: nat)
    requires Inv(a, ord) && h < |ord| && Aligned(h, ord[h]) && h + Pow2(ord[h]) < |ord|
    ensures a.status[h + Pow2(ord[h])] != GROUPED
  {
    var k := ord[h];
    var q := h + Pow2(k);
    AlignedNext(h, k);
    assert Whole(ord, h) && Whole(ord, q) && Marked(a.status, ord, q);
    if ord[q] <= k {
      AlignedDown(q, ord[q], k);
    } else if !Aligned(q, ord[q]) {
      var b := Base(q, ord[q]);
      BaseBounds(q, ord[q]);
      AlignedDown(b, k, ord[q]);
      AlignedGap(b, q, k);
    }
  }

  lemma HeadOrderLe(a: Pages, o1: seq<nat>, o2: seq<nat>, h: nat)
    requires Inv(a, o1) && Inv(a, o2) && h < |a.status| && a.status[h] != GROUPED
    ensures o2[h] <= o1[h]
  {
    assert Marked(a.status, o1, h) && Marked(a.status, o2, h);
    if o1[h] < o2[h] {
      Pow2Mono(o1[h], o2[h]);
      BlockFits(|o2|, a.Top(), h, o2[h]);
      NextIsHead(a, o1, h);
      InteriorGrouped(a, o2, h, h + Pow2(o1[h]), NULL);
    }
  }

  /** The GROUPED marks alone determine the extent of every block, taken or free. */
  lemma ExtentFromMarks(a: Pages, o1: seq<nat>, o2: seq<nat>)
    requires Inv(a, o1) && Inv(a, o2)
    ensures o1 == o2
  {
    forall p: nat | p < |a.status|
      ensures o1[p] == o2[p]
    {
      var h := Base(p, o1[p]);
      BaseBounds(p, o1[p]);
      assert Whole(o1, p);
      assert o1[h] == o1[p];
      assert Marked(a.status, o1, h);
      HeadOrderLe(a, o1, o2, h);
      HeadOrderLe(a, o2, o1, h);
      assert Whole(o2, h);
      assert Marked(a.status, o2, h);
    }
  }

  // ----- maximal merging -----

  /** An aligned run of free pages, up to the top order, lies inside a single free block. */
  lemma {:induction false} FreeRunInOneBlock(a: Pages, b: nat, k: nat)
    requires Valid(a) && FreeRun(a, b, k) && k <= a.Top()
    ensures Ord(a)[b] >= k
    decreases k
  {
    var ord := Ord(a);
    if k > 0 {
      var h: nat := k - 1;
      var u := b + Pow2(h);
      AlignedDown(b, h, k);
      AlignedNext(b, h);
      assert FreeRun(a, b, h);
      FreeRunInOneBlock(a, b, h);
      assert FreeRun(a, u, h);
      FreeRunInOneBlock(a, u, h);
      assert Whole(ord, u);
      assert FreePage(a, b) && FreePage(a, u);
      assert Marked(a.status, ord, b) && Marked(a.status, ord, u) && Lonely(a, b, NULL);
      Buddy(b, h);
      BuddyIs(b, h);
      if ord[b] == h && ord[u] > h {
        SameCoarse(b, h, ord[u]);
        BaseBounds(b, ord[u]);
      }
    }
  }

  /** A page's order is at least that of any free aligned run around it. */
  lemma OrderCoversRun(a: Pages, b: nat, k: nat, p: nat)
    requires Valid(a) && FreeRun(a, b, k) && k <= a.Top() && b <= p < b + Pow2(k)
    ensures Ord(a)[p] >= k
  {
    var ord := Ord(a);
    FreeRunInOneBlock(a, b, k);
    assert Whole(ord, b);
    BaseUnique(b, p, k);
    BaseNested(p, k, ord[b]);
    BaseBounds(p, ord[b]);
  }

  /** All pages of a free block are free. */
  lemma FreeBlockIsRun(a: Pages, p: nat)
    requires Valid(a) && p < |a.status| && FreePage(a, p)
    ensures FreeRun(a, Head(a, p), Ord(a)[p])
  {
    var ord := Ord(a);
    var k := ord[p];
    var h := Head(a, p);
    BaseBounds(p, k);
    BlockFits(|ord|, a.Top(), p, k);
    assert Whole(ord, p);
    forall q: nat | h <= q < h + Pow2(k)
      ensures FreePage(a, q)
    {
      BaseUnique(h, q, k);
    }
  }

  // ----- the taken blocks determine the rest -----

  /** A taken block covers its pages. */
  lemma TakenCovers(a: Pages, x: Block, p: nat)
    requires Valid(a) && x in TakenBlocks(a) && x.head <= p < x.head + Pow2(x.order)
    ensures x.head < |a.status| && x.order == Ord(a)[x.head] && x.kind == a.status[x.head] && Aligned(x.head, x.order)
    ensures p < |a.status| && Ord(a)[p] == x.order && Head(a, p) == x.head && !FreePage(a, p)
  {
    var ord := Ord(a);
    assert Marked(a.status, ord, x.head) && Whole(ord, x.head);
    BlockFits(|ord|, a.Top(), x.head, x.order);
    BaseUnique(x.head, p, x.order);
  }

  /** A page that is not free lies in a taken block. */
  lemma TakenOwner(a: Pages, p: nat) returns (x: Block)
    requires Valid(a) && p < |a.status| && !FreePage(a, p)
    ensures x in TakenBlocks(a) && x.head <= p < x.head + Pow2(x.order)
    ensures x == Block(Head(a, p), Ord(a)[p], a.status[Head(a, p)])
  {
    var ord := Ord(a);
    var h := Head(a, p);
    InBlock(ord, p);
    assert Whole(ord, p) && Marked(a.status, ord, h);
    x := Block(h, ord[h], a.status[h]);
  }

  lemma SameFreePages(a: Pages, b: Pages, p: nat)
    requires Valid(a) && Valid(b) && |a.status| == |b.status| && TakenBlocks(a) == TakenBlocks(b)
    requires p < |a.status| && FreePage(a, p)
    ensures FreePage(b, p)
  {
    if !FreePage(b, p) {
      var x := TakenOwner(b, p);
      TakenCovers(a, x, p);
    }
  }

  lemma FreeOrderLe(a: Pages, b: Pages, p: nat)
    requires Valid(a) && Valid(b) && |a.status| == |b.status| && |a.lists| == |b.lists|
    requires TakenBlocks(a) == TakenBlocks(b) && p < |a.status| && FreePage(b, p)
    ensures Ord(b)[p] <= Ord(a)[p]
  {
    var h, k := Head(b, p), Ord(b)[p];
    FreeBlockIsRun(b, p);
    forall q: nat | h <= q < h + Pow2(k)
      ensures FreePage(a, q)
    {
      SameFreePages(b, a, q);
    }
    BaseBounds(p, k);
    OrderCoversRun(a, h, k, p);
  }

  /** Canonical form: states with the same taken blocks have the same status words, and so the
      same free blocks on the same lists, whatever histories led to them. */
  lemma Canonical(a: Pages, b: Pages)
    requires Valid(a) && Valid(b) && |a.status| == |b.status| && |a.lists| == |b.lists|
    requires TakenBlocks(a) == TakenBlocks(b)
    ensures a.status == b.status
    ensures forall k: nat, p: nat :: k < |a.lists| ==> (p in a.lists[k] <==> p in b.lists[k])
  {
    forall p: nat | p < |a.status|
      ensures a.status[p] == b.status[p]
    {
      assert Marked(a.status, Ord(a), p) && Marked(b.status, Ord(b), p);
      if FreePage(a, p) {
        SameFreePages(a, b, p);
        FreeOrderLe(a, b, p);
        FreeOrderLe(b, a, p);
      } else {
        var x := TakenOwner(a, p);
        TakenCovers(b, x, p);
      }
    }
    forall k: nat, p: nat | k < |a.lists|
      ensures p in a.lists[k] <==> p in b.lists[k]
    {
      assert Listed(a, k, NULL) && Listed(b, k, NULL);
    }
  }
}
