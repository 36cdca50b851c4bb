/** The state of the page allocator as a value, the invariant that every operation of
    page_allocator.c keeps, and the four steps those operations are made of: taking a block
    off its list, splitting it, merging it with its buddy, and putting it back. */
module BuddyState {
  import opened Machine
  import opened Bits
  import opened LinkedNodes

  const GROUPED := -1
  const OCCUPIED := -2
  const RESERVED := -3

  /** One status word per page, and one free list per order 0 .. Top(). */
  datatype Pages = Pages(status: seq<int>, lists: seq<seq<nat>>) {

    /** BLOCK_MAX_ORDER */
    function Top(): int {
      |lists| - 1
    }

    /** The page count is a multiple of 2^(Top()+1): the buddy that `page_free` reads at the top
        level then exists. */
    predicate Sized() {
      |lists| > 0 && Aligned(|status|, |lists|)
    }

    /** free_list_insert */
    function Insert(p: nat, k: nat): (r: Pages)
      requires k < |lists|
      ensures r.Sized() <==> Sized()
    {
      this.(lists := lists[k := [p] + lists[k]])
    }

    /** free_list_remove; the node may already be unlinked */
    function Remove(p: nat, k: nat): (r: Pages)
      requires k < |lists|
      ensures r.Sized() <==> Sized()
    {
      this.(lists := lists[k := Without(lists[k], p)])
    }

    function Mark(p: nat, v: int): (r: Pages)
      requires p < |status|
      ensures r.Sized() <==> Sized()
    {
      this.(status := status[p := v])
    }
  }

  // ----- the invariant -----
  // ord[p] is the order of the block that page p belongs to.  The allocator stores it only
  // for free blocks; everywhere else it must be recovered from the GROUPED marks.

  /** Page p's block is the aligned run of 2^ord[p] pages around it, and all its pages agree. */
  ghost predicate Whole(ord: seq<nat>, p: nat)
    requires p < |ord|
  {
    forall q: nat :: Base(p, ord[p]) <= q < Base(p, ord[p]) + Pow2(ord[p]) && q < |ord| ==> ord[q] == ord[p]
  }

  ghost predicate AllWhole(ord: seq<nat>) {
    forall p: nat :: p < |ord| ==> Whole(ord, p)
  }

  /** Exactly the pages that do not head their block are GROUPED; a head is taken, or holds
      its order. */
  predicate Marked(status: seq<int>, ord: seq<nat>, p: nat)
    requires p < |status| == |ord|
  {
    if Aligned(p, ord[p]) then status[p] == ord[p] || status[p] == OCCUPIED || status[p] == RESERVED
    else status[p] == GROUPED
  }

  /** The buddy of p at order k has status k. */
  predicate BuddyFree(a: Pages, p: nat, k: nat) {
    var c := Xor(p, Pow2(k));
    c < |a.status| && a.status[c] == k
  }

  /** A free block below the top order has no free buddy of its own order, unless that buddy
      is the block in hand. */
  predicate Lonely(a: Pages, p: nat, hand: int)
    requires p < |a.status|
  {
    0 <= a.status[p] < a.Top() && BuddyFree(a, p, a.status[p]) ==> Xor(p, Pow2(a.status[p])) == hand
  }

  /** free_list[k] holds exactly the heads with status k, once each, but not the block in hand. */
  ghost predicate Listed(a: Pages, k: nat, hand: int)
    requires k < |a.lists|
  {
    && NoDup(a.lists[k])
    && forall p: nat :: p in a.lists[k] <==> p < |a.status| && p != hand && a.status[p] == k
  }

  /** The invariant while the block headed by `hand` is being worked on: its own status word is
      unconstrained and it is on no list. */
  ghost predicate Held(a: Pages, ord: seq<nat>, hand: int) {
    && a.Sized() && |ord| == |a.status|
    && (hand == NULL || (0 <= hand < |ord| && Aligned(hand, ord[hand])))
    && (forall p: nat :: p < |ord| ==> ord[p] <= a.Top())
    && AllWhole(ord)
    && (forall p: nat :: p < |ord| && p != hand ==> Marked(a.status, ord, p))
    && (forall p: nat :: p < |ord| && p != hand ==> Lonely(a, p, hand))
    && (forall k: nat :: k < |a.lists| ==> Listed(a, k, hand))
  }

  /** The invariant between operations. */
  ghost predicate Inv(a: Pages, ord: seq<nat>) {
    Held(a, ord, NULL)
  }

  /** The block in hand, and every page with a negative status, is on no list. */
  lemma OffLists(a: Pages, ord: seq<nat>, hand: int, p: nat)
    requires Held(a, ord, hand) && p < |ord| && (p == hand || a.status[p] < 0)
    ensures !On(a.lists, p)
  {
    forall k | 0 <= k < |a.lists|
      ensures p !in a.lists[k]
    {
      assert Listed(a, k, hand);
    }
  }

  lemma HeldBounds(a: Pages, ord: seq<nat>, t: nat)
    requires Held(a, ord, t)
    ensures a.Sized() && t < |ord| == |a.status| && ord[t] <= a.Top()
  {
  }

  lemma HandAligned(a: Pages, ord: seq<nat>, t: nat)
    requires Held(a, ord, t)
    ensures t < |ord| && Aligned(t, ord[t])
  {
  }

  // ----- the geometry of blocks -----

  lemma InBlock(ord: seq<nat>, p: nat)
    requires p < |ord| && Whole(ord, p)
    ensures Base(p, ord[p]) <= p < Base(p, ord[p]) + Pow2(ord[p])
    ensures Aligned(Base(p, ord[p]), ord[p])
    ensures ord[Base(p, ord[p])] == ord[p]
  {
    BaseBounds(p, ord[p]);
  }

  /** A whole block lies below the page count. */
  lemma BlockFits(n: nat, top: nat, p: nat, k: nat)
    requires p < n && Aligned(n, top + 1) && k <= top + 1
    ensures Base(p, k) + Pow2(k) <= n
  {
    BaseBounds(p, k);
    AlignedDown(n, k, top + 1);
    AlignedGap(Base(p, k), n, k);
  }

  /** v, for every page of the aligned run of 2^k pages at b. */
  function SetRun(ord: seq<nat>, b: nat, k: nat, v: nat): (r: seq<nat>)
    ensures |r| == |ord|
    ensures forall p :: 0 <= p < |ord| ==> r[p] == if b <= p < b + Pow2(k) then v else ord[p]
  {
    seq(|ord|, p requires 0 <= p < |ord| => if b <= p < b + Pow2(k) then v else ord[p])
  }

  /** Re-cutting an aligned run made of whole blocks into equal smaller blocks, or one. */
  lemma SetRunWhole(ord: seq<nat>, b: nat, k: nat, v: nat)
    requires AllWhole(ord) && Aligned(b, k) && v <= k && b + Pow2(k) <= |ord|
    requires forall p: nat :: b <= p < b + Pow2(k) ==> ord[p] <= k
    ensures AllWhole(SetRun(ord, b, k, v))
  {
    var ord' := SetRun(ord, b, k, v);
    forall p: nat | p < |ord'|
      ensures Whole(ord', p)
    {
      assert Whole(ord, p);
      BaseBounds(p, ord'[p]);
      if b <= p < b + Pow2(k) {
        BaseUnique(b, p, k);
        BaseNested(p, v, k);
      } else {
        forall q: nat | Base(p, ord'[p]) <= q < Base(p, ord'[p]) + Pow2(ord'[p]) && q < |ord'|
          ensures ord'[q] == ord'[p]
        {
          Outside(ord, b, k, p, q);
        }
      }
    }
  }

  /** A block with a page outside the run has none inside. */
  lemma Outside(ord: seq<nat>, b: nat, k: nat, p: nat, q: nat)
    requires p < |ord| && q < |ord| && Whole(ord, p) && Aligned(b, k) && b + Pow2(k) <= |ord|
    requires forall r: nat :: b <= r < b + Pow2(k) ==> ord[r] <= k
    requires !(b <= p < b + Pow2(k)) && Base(p, ord[p]) <= q < Base(p, ord[p]) + Pow2(ord[p])
    ensures ord[q] == ord[p] && !(b <= q < b + Pow2(k))
  {
    BaseBounds(p, ord[p]);
    BaseUnique(Base(p, ord[p]), q, ord[p]);
    if b <= q < b + Pow2(k) {
      BaseUnique(b, q, k);
      BaseNested(q, ord[p], k);
    }
  }

  /** Buddies of order k share every larger aligned run. */
  lemma SameCoarse(t: nat, k: nat, j: nat)
    requires Aligned(t, k) && k < j
    ensures Base(Xor(t, Pow2(k)), j) == Base(t, j)
  {
    Buddy(t, k);
    BaseNested(t, k + 1, j);
    BaseNested(Xor(t, Pow2(k)), k + 1, j);
  }

  /** The buddy of a block of order k heads its own block, of order at most k. */
  lemma BuddyHeads(a: Pages, ord: seq<nat>, t: nat, k: nat, hand: int)
    requires Held(a, ord, hand) && t < |ord| && ord[t] == k && Aligned(t, k)
    ensures var c := Xor(t, Pow2(k));
            && c < |ord| && c != t && ord[c] <= k && Aligned(c, ord[c])
            && (c != hand ==> a.status[c] != GROUPED)
  {
    AlignedDown(|ord|, k + 1, |a.lists|);
    XorBound(t, k, |ord|);
    Buddy(t, k);
    var c := Xor(t, Pow2(k));
    assert Whole(ord, c);
    if ord[c] > k {
      SameCoarse(t, k, ord[c]);
      BaseBounds(t, ord[c]);
    }
    AlignedDown(c, ord[c], k);
    if c != hand { assert Marked(a.status, ord, c); }
  }

  // ----- the four steps -----

  /** Pushing page p, which is on no list, with status l, and changing the block in hand. */
  lemma ListedInsert(a: Pages, hand: int, p: nat, l: nat, hand': int)
    requires p < |a.status| && l < |a.lists| && p != hand'
    requires forall k: nat :: k < |a.lists| ==> Listed(a, k, hand)
    requires p == hand || a.status[p] < 0
    requires hand' == hand || hand' == NULL || (0 <= hand' < |a.status| && a.status[hand'] < 0)
    requires hand == hand' || hand == p || hand == NULL
    ensures forall k: nat :: k < |a.lists| ==> Listed(a.Mark(p, l).Insert(p, l), k, hand')
  {
    var a' := a.Mark(p, l).Insert(p, l);
    forall k: nat | k < |a.lists|
      ensures Listed(a', k, hand')
    {
      assert Listed(a, k, hand);
      if k == l { NoDupPush(a.lists[k], p); }
    }
  }

  /** Taking page p off list l, and re-marking it or the block in hand. */
  lemma ListedRemove(a: Pages, hand: int, p: nat, l: nat, a': Pages, hand': int)
    requires l < |a.lists| && |a'.status| == |a.status| && a'.lists == a.Remove(p, l).lists
    requires forall k: nat :: k < |a.lists| ==> Listed(a, k, hand)
    requires p < |a.status| && (p == hand' || a'.status[p] < 0) && p != hand && a.status[p] == l
    requires forall q: nat :: q < |a.status| && q != p && q != hand ==> q != hand' && a'.status[q] == a.status[q]
    requires hand == NULL || hand == hand' || (0 <= hand < |a.status| && a'.status[hand] < 0)
    ensures forall k: nat :: k < |a.lists| ==> Listed(a', k, hand')
  {
    forall k: nat | k < |a.lists|
      ensures Listed(a', k, hand')
    {
      assert Listed(a, k, hand);
      WithoutMembers(a.lists[k], p);
    }
  }

  /** Picking a block up: off its free list if it is on one. */
  lemma Take(a: Pages, ord: seq<nat>, t: nat)
    requires Inv(a, ord) && t < |ord| && Aligned(t, ord[t])
    ensures a.status[t] < 0 ==> Held(a, ord, t)
    ensures a.status[t] >= 0 ==> a.status[t] == ord[t] && Held(a.Remove(t, ord[t]), ord, t)
  {
    assert Marked(a.status, ord, t);
    var k := ord[t];
    var a' := if a.status[t] < 0 then a else a.Remove(t, k);
    forall p: nat | p < |ord| && p != t
      ensures Lonely(a', p, t)
    {
      assert Lonely(a, p, NULL);
    }
    if a.status[t] < 0 {
      forall j: nat | j < |a.lists|
        ensures Listed(a', j, t)
      {
        assert Listed(a, j, NULL);
      }
    } else {
      ListedRemove(a, NULL, t, k, a', t);
    }
  }

  /** Putting a block down as taken. */
  lemma PutTaken(a: Pages, ord: seq<nat>, t: nat, v: int)
    requires Held(a, ord, t) && (v == OCCUPIED || v == RESERVED)
    ensures Inv(a.Mark(t, v), ord)
  {
    var a' := a.Mark(t, v);
    forall p: nat | p < |ord|
      ensures Marked(a'.status, ord, p) && Lonely(a', p, NULL)
    {
      if p != t { assert Marked(a.status, ord, p) && Lonely(a, p, t); }
    }
    forall k: nat | k < |a.lists|
      ensures Listed(a', k, NULL)
    {
      assert Listed(a, k, t);
    }
  }

  /** Putting a block down as free. */
  lemma PutFree(a: Pages, ord: seq<nat>, t: nat)
    requires Held(a, ord, t)
    requires ord[t] == a.Top() || !BuddyFree(a, t, ord[t])
    ensures Inv(a.Mark(t, ord[t]).Insert(t, ord[t]), ord)
  {
    hide Xor, Base;
    var k := ord[t];
    var a' := a.Mark(t, k).Insert(t, k);
    forall p: nat | p < |ord|
      ensures Marked(a'.status, ord, p) && Lonely(a', p, NULL)
    {
      Buddy(t, k);
      if p != t {
        assert Marked(a.status, ord, p) && Lonely(a, p, t);
        if 0 <= a.status[p] {
          Buddy(p, a.status[p]);
        }
      }
    }
    ListedInsert(a, t, t, k, NULL);
  }

  /** Splitting the block in hand: one half stays in hand, the other becomes a free block. */
  lemma Split(a: Pages, ord: seq<nat>, t: nat, keepLow: bool)
    returns (ord': seq<nat>, keep: nat, other: nat)
    requires Held(a, ord, t) && ord[t] > 0
    ensures var l: nat := ord[t] - 1;
            && ord' == SetRun(ord, t, l + 1, l)
            && Xor(t, Pow2(l)) == t + Pow2(l) < |ord|
            && a.status[t + Pow2(l)] == GROUPED
            && keep == (if keepLow then t else t + Pow2(l))
            && other == (if keepLow then t + Pow2(l) else t)
            && Held(a.Mark(other, l).Insert(other, l), ord', keep)
  {
    var l := ord[t] - 1;
    var u := t + Pow2(l);
    keep, other := if keepLow then t else u, if keepLow then u else t;
    ord' := SplitCut(a, ord, t);
    var a' := a.Mark(other, l).Insert(other, l);
    SplitLonely(a, ord, t, other, keep);
    ListedInsert(a, t, other, l, keep);
    forall p: nat | p < |ord| && p != keep
      ensures Marked(a'.status, ord', p)
    {
      if p != t && p != u { assert Marked(a.status, ord', p); }
    }
  }

  /** The two halves are whole blocks, and no page but the upper half's head changes its mark. */
  lemma SplitCut(a: Pages, ord: seq<nat>, t: nat) returns (ord': seq<nat>)
    requires Held(a, ord, t) && ord[t] > 0
    ensures var l: nat := ord[t] - 1; var u := t + Pow2(l);
            && ord' == SetRun(ord, t, l + 1, l) && AllWhole(ord')
            && Xor(t, Pow2(l)) == u < |ord| && Xor(u, Pow2(l)) == t
            && Aligned(t, l) && Aligned(u, l) && ord'[t] == l && ord'[u] == l
            && a.status[u] == GROUPED
            && (forall p: nat :: p < |ord| && p != t && p != u ==> Marked(a.status, ord', p))
  {
    hide Lonely, Listed, Xor, Base;
    var l := ord[t] - 1;
    var u := t + Pow2(l);
    BlockFits(|ord|, a.Top(), t, l + 1);
    AlignedDown(t, l, l + 1);
    Buddy(t, l);
    BuddyIs(t, l);
    ord' := SetRun(ord, t, l + 1, l);
    assert Whole(ord, t);
    SetRunWhole(ord, t, l + 1, l);
    InteriorGrouped(a, ord, t, u, t);
    forall p: nat | p < |ord| && p != t && p != u
      ensures Marked(a.status, ord', p)
    {
      assert Marked(a.status, ord, p);
      if t < p < t + Pow2(l + 1) {
        InteriorGrouped(a, ord, t, p, t);
        NotHalf(t, l, p);
      }
    }
  }

  lemma SplitLonely(a: Pages, ord: seq<nat>, t: nat, other: nat, keep: nat)
    requires Held(a, ord, t) && ord[t] > 0
    requires var l: nat := ord[t] - 1; var u := t + Pow2(l);
             && u < |ord| && Xor(t, Pow2(l)) == u && Xor(u, Pow2(l)) == t && a.status[u] == GROUPED
             && ((other == u && keep == t) || (other == t && keep == u))
    ensures var l: nat := ord[t] - 1;
            forall p: nat :: p < |ord| && p != keep ==> Lonely(a.Mark(other, l).Insert(other, l), p, keep)
  {
    hide Listed, Xor, Base;
    var l: nat := ord[t] - 1;
    var a' := a.Mark(other, l).Insert(other, l);
    forall p: nat | p < |ord| && p != keep
      ensures Lonely(a', p, keep)
    {
      if p != t && p != other {
        assert Lonely(a, p, t);
        assert Marked(a.status, ord, p);
        if 0 <= a.status[p] { Buddy(p, a.status[p]); }
      }
    }
  }

  /** Inside a block only the head is not GROUPED. */
  lemma InteriorGrouped(a: Pages, ord: seq<nat>, t: nat, p: nat, hand: int)
    requires Held(a, ord, hand) && t < |ord| && Aligned(t, ord[t])
    requires t < p < t + Pow2(ord[t]) && p != hand
    ensures p < |ord| && ord[p] == ord[t] && !Aligned(p, ord[t]) && a.status[p] == GROUPED
  {
    BlockFits(|ord|, a.Top(), t, ord[t]);
    assert Whole(ord, t);
    BaseUnique(t, p, ord[t]);
    assert Marked(a.status, ord, p);
  }

  lemma NotHalf(t: nat, l: nat, p: nat)
    requires Aligned(t, l + 1) && t < p < t + Pow2(l + 1) && p != t + Pow2(l)
    ensures !Aligned(p, l)
  {
    AlignedDown(t, l, l + 1);
    AlignedNext(t, l);
    if p < t + Pow2(l) {
      BaseUnique(t, p, l);
    } else {
      BaseUnique(t + Pow2(l), p, l);
    }
  }

  /** Merging the block in hand with its free buddy of the same order. */
  lemma Merge(a: Pages, ord: seq<nat>, t: nat)
    returns (ord': seq<nat>, low: nat, high: nat)
    requires Held(a, ord, t) && ord[t] < a.Top()
    requires BuddyFree(a, t, ord[t])
    ensures var l := ord[t];
            var c := Xor(t, Pow2(l));
            && low == Min(t, c) && high == low + Pow2(l) && (high == t || high == c) && high < |ord|
            && Aligned(low, l + 1)
            && ord' == SetRun(ord, low, l + 1, l + 1)
            && Held(a.Remove(c, l).Mark(high, GROUPED), ord', low)
  {
    var l := ord[t];
    var c := Xor(t, Pow2(l));
    Buddy(t, l);
    low, high := Min(t, c), if t < c then c else t;
    ord' := MergeCut(a, ord, t, low, high);
    var a' := a.Remove(c, l).Mark(high, GROUPED);
    forall p: nat | p < |ord| && p != low
      ensures Marked(a'.status, ord', p)
    {
      if p != high { assert Marked(a.status, ord', p); }
    }
    forall p: nat | p < |ord| && p != low
      ensures Lonely(a', p, low)
    {
      if p != t { assert Lonely(a, p, t); }
    }
    ListedRemove(a, t, c, l, a', low);
  }

  /** The merged run is one whole block, and only the old upper head must be marked anew. */
  lemma MergeCut(a: Pages, ord: seq<nat>, t: nat, low: nat, high: nat) returns (ord': seq<nat>)
    requires Held(a, ord, t) && ord[t] < a.Top()
    requires BuddyFree(a, t, ord[t])
    requires var c := Xor(t, Pow2(ord[t])); low == Min(t, c) && high == if t < c then c else t
    ensures var l := ord[t];
            && ord' == SetRun(ord, low, l + 1, l + 1) && AllWhole(ord') && Aligned(low, l + 1)
            && high == low + Pow2(l) < |ord| && ord'[high] == l + 1 && !Aligned(high, l + 1)
            && (forall p: nat :: p < |ord| && p != low && p != high ==> Marked(a.status, ord', p))
  {
    hide Lonely, Listed, Xor, Base;
    var l := ord[t];
    var c := Xor(t, Pow2(l));
    BuddyHeads(a, ord, t, l, t);
    Buddy(t, l);
    ord' := SetRun(ord, low, l + 1, l + 1);
    BlockFits(|ord|, a.Top(), low, l + 1);
    assert Marked(a.status, ord, c) && Whole(ord, t) && Whole(ord, c);
    SetRunWhole(ord, low, l + 1, l + 1);
    BaseUnique(low, high, l + 1);
    forall p: nat | p < |ord| && p != low && p != high
      ensures Marked(a.status, ord', p)
    {
      if low < p < low + Pow2(l + 1) {
        BaseUnique(low, p, l + 1);
        if p < high { InteriorGrouped(a, ord, low, p, t); } else { InteriorGrouped(a, ord, high, p, t); }
      } else {
        assert Marked(a.status, ord, p);
      }
    }
  }
}
