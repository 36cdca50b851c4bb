/** lib/allocator/dynamic_allocator.c on top of the page allocator: the pools of slabs, what
    dyna_alloc and dyna_free do to them, and who owns every page and every object. */
module SlabOps {
  import opened Machine
  import opened Bits
  import opened LinkedNodes
  import opened BuddyState
  import opened BuddyTheory
  import B = BuddyOps
  import opened SlabState

  /** The page allocator, one list of slabs per size class, and the header of every slab.  A
      slab is one page, named by its index. */
  datatype Dyna = Dyna(pages: Pages, pools: seq<seq<nat>>, hdr: map<nat, Header>)

  function SlabBlock(p: nat): Block {
    Block(p, 0, OCCUPIED)
  }

  ghost predicate SlabOk(d: Dyna, k: nat, p: nat)
    requires Valid(d.pages)
  {
    p in d.hdr && HeaderOk(d.hdr[p], k) && SlabBlock(p) in TakenBlocks(d.pages) && p != 0
  }

  /** Slabs are whole order-0 blocks of the page allocator, on one pool list each; page 0, whose
      address is NULL, is reserved, as start-up leaves it; and a list of several slabs has no
      empty one. */
  ghost predicate SlabInv(d: Dyna) {
    && Valid(d.pages) && |d.pages.status| > 0 && d.pages.status[0] == RESERVED
    && |d.pools| == POOLS && Disjoint(d.pools)
    && (forall k: nat :: k < POOLS ==> NoDup(d.pools[k]))
    && (forall p: nat :: p in d.hdr <==> On(d.pools, p))
    && (forall k: nat, p: nat :: k < POOLS && p in d.pools[k] ==> SlabOk(d, k, p))
    && (forall k: nat, p: nat :: k < POOLS && p in d.pools[k] && |d.pools[k]| > 1 ==>
          p in d.hdr && d.hdr[p].avail < d.hdr[p].capacity)
  }

  /** Slot j of slab p is an object that dyna_alloc handed out and nobody freed. */
  ghost predicate IsLive(d: Dyna, p: nat, j: nat) {
    p in d.hdr && RowsOk(d.hdr[p].rows) && LiveSlot(d.hdr[p], j)
  }

  // ----- dyna_alloc -----

  /** The position of the first slab of a list that is not full. */
  function FirstAvail(xs: seq<nat>, hdr: map<nat, Header>): (i: nat)
    requires forall p :: p in xs ==> p in hdr
    ensures i <= |xs| && (i < |xs| ==> hdr[xs[i]].avail > 0)
    ensures forall j :: 0 <= j < i ==> hdr[xs[j]].avail == 0
  {
    if xs == [] || hdr[xs[0]].avail > 0 then 0 else 1 + FirstAvail(xs[1..], hdr)
  }

  lemma PoolHeaders(d: Dyna, k: nat)
    requires SlabInv(d) && k < POOLS
    ensures forall p :: p in d.pools[k] ==> p in d.hdr && HeaderOk(d.hdr[p], k) && d.hdr[p].capacity <= 64 * ROWS
  {
    forall p | p in d.pools[k]
      ensures p in d.hdr && HeaderOk(d.hdr[p], k) && d.hdr[p].capacity <= 64 * ROWS
    {
      assert SlabOk(d, k, p);
      CapacityBounds(k);
    }
  }

  /** Every slab of the class is full, so that page_alloc must supply another. */
  ghost predicate NeedsSlab(d: Dyna, k: nat)
    requires SlabInv(d) && k < POOLS
  {
    PoolHeaders(d, k);
    FirstAvail(d.pools[k], d.hdr) == |d.pools[k]|
  }

  /** find_avail_slab assumes that page_alloc succeeds. */
  ghost predicate CanServe(d: Dyna, size: nat)
    requires SlabInv(d)
  {
    var k := PoolIdx(size);
    k < POOLS && NeedsSlab(d, k) ==> B.AllocOrder(d.pages, 0).1.Some?
  }

  /** A new slab at the end of the list. */
  ghost function NewSlab(d: Dyna, k: nat): (r: (Dyna, nat))
    requires SlabInv(d) && k < POOLS && B.AllocOrder(d.pages, 0).1.Some?
  {
    var (pages, got) := B.AllocOrder(d.pages, 0);
    var p := got.value;
    (Dyna(pages, d.pools[k := d.pools[k] + [p]], d.hdr[p := Fresh(ObjSize(k))]), p)
  }

  /** find_avail_slab */
  ghost function FindAvailSlab(d: Dyna, k: nat): (r: (Dyna, nat))
    requires SlabInv(d) && k < POOLS && (NeedsSlab(d, k) ==> B.AllocOrder(d.pages, 0).1.Some?)
  {
    PoolHeaders(d, k);
    var i := FirstAvail(d.pools[k], d.hdr);
    if i < |d.pools[k]| then (d, d.pools[k][i]) else NewSlab(d, k)
  }

  /** find_avail_slab, in the terms of its loop: the first i slabs are full. */
  lemma FindAvailIs(d: Dyna, k: nat, i: nat)
    requires SlabInv(d) && k < POOLS && i <= |d.pools[k]|
    requires forall j :: 0 <= j < i ==> d.pools[k][j] in d.hdr && d.hdr[d.pools[k][j]].avail == 0
    ensures i == |d.pools[k]| ==>
              NeedsSlab(d, k) && (B.AllocOrder(d.pages, 0).1.Some? ==> FindAvailSlab(d, k) == NewSlab(d, k))
    ensures i < |d.pools[k]| && d.pools[k][i] in d.hdr && d.hdr[d.pools[k][i]].avail > 0 ==>
              !NeedsSlab(d, k) && FindAvailSlab(d, k) == (d, d.pools[k][i])
  {
    hide SlabOk, HeaderOk, NewSlab, B.AllocOrder, Valid;
    PoolHeaders(d, k);
    var f := FirstAvail(d.pools[k], d.hdr);
  }

  /** Page 0 stays reserved as long as no reserved block goes. */
  lemma StaysReserved(a: Pages, b: Pages)
    requires Valid(a) && Valid(b) && |a.status| == |b.status| > 0 && a.status[0] == RESERVED
    requires forall x :: x in TakenBlocks(a) && x.kind == RESERVED ==> x in TakenBlocks(b)
    ensures b.status[0] == RESERVED
  {
    assert Marked(a.status, Ord(a), 0);
    var x := Block(0, Ord(a)[0], RESERVED);
    assert x in TakenBlocks(a);
  }

  /** find_avail_slab returns a slab of the class that is not full; if it had to add one, that is
      a page which was free before, now a slab with no live object. */
  lemma FindAvailSlabTheorem(d: Dyna, k: nat)
    requires SlabInv(d) && k < POOLS && (NeedsSlab(d, k) ==> B.AllocOrder(d.pages, 0).1.Some?)
    ensures var (e, p) := FindAvailSlab(d, k);
            && Grown(d, e, k, p)
            && p in e.pools[k] && p in e.hdr && HeaderOk(e.hdr[p], k) && e.hdr[p].avail > 0
            && (e != d ==> forall q :: q in e.pools[k] && q != p ==> e.hdr[q].avail == 0)
  {
    hide FreePage, B.AllocOrder, TakenBlocks, Valid, On, NoDup, Disjoint, HeaderOk;
    PoolHeaders(d, k);
    var i := FirstAvail(d.pools[k], d.hdr);
    if i < |d.pools[k]| {
      assert d.pools[k][i] in d.pools[k];
    } else {
      NewSlabGrows(d, k);
      CapacityBounds(k);
      FreshOk(k);
    }
  }

  /** SlabInv, but for the one slab p of class k, which may be empty next to others; and what e
      keeps of d. */
  ghost predicate Grown(d: Dyna, e: Dyna, k: nat, p: nat)
    requires SlabInv(d)
  {
    && k < POOLS && |e.pools| == POOLS && Disjoint(e.pools)
    && Valid(e.pages) && |e.pages.status| == |d.pages.status| > 0 && e.pages.status[0] == RESERVED
    && (forall i: nat :: i < POOLS ==> NoDup(e.pools[i]))
    && (forall q: nat :: q in e.hdr <==> On(e.pools, q))
    && (forall i: nat, q: nat :: i < POOLS && q in e.pools[i] ==> SlabOk(e, i, q))
    && (forall i: nat, q: nat :: i < POOLS && q in e.pools[i] && |e.pools[i]| > 1 && q != p ==>
          q in e.hdr && e.hdr[q].avail < e.hdr[q].capacity)
    && (forall q: nat, j: nat :: IsLive(e, q, j) <==> IsLive(d, q, j))
    && (if p in d.hdr then e == d
        else TakenBlocks(e.pages) == TakenBlocks(d.pages) + {SlabBlock(p)} && SlabBlock(p) !in TakenBlocks(d.pages)
             && p < |d.pages.status| && FreePage(d.pages, p) && e.hdr.Keys == d.hdr.Keys + {p})
  }

  lemma NewSlabGrows(d: Dyna, k: nat)
    requires SlabInv(d) && k < POOLS && B.AllocOrder(d.pages, 0).1.Some?
    requires forall q :: q in d.pools[k] ==> q in d.hdr && d.hdr[q].avail == 0
    ensures var (e, p) := NewSlab(d, k); p < |d.pages.status| && p !in d.hdr && Grown(d, e, k, p)
  {
    hide FreePage, B.AllocOrder, TakenBlocks, Valid, On, NoDup, Disjoint;
    NewSlabPage(d);
    var (e, p) := NewSlab(d, k);
    Append(d.pools, k, p);
    FreshOk(k);
    CapacityBounds(k);
    forall i: nat, q: nat | i < POOLS && q in e.pools[i]
      ensures SlabOk(e, i, q)
      ensures |e.pools[i]| > 1 && q != p ==> e.hdr[q].avail < e.hdr[q].capacity
    {
      if q != p {
        assert SlabOk(d, i, q);
        if i == k { CapacityBounds(k); }
      }
    }
  }

  /** The page for a new slab: free until now, and no slab. */
  lemma NewSlabPage(d: Dyna)
    requires SlabInv(d) && B.AllocOrder(d.pages, 0).1.Some?
    ensures var (pages, got) := B.AllocOrder(d.pages, 0);
            && Valid(pages) && |pages.status| == |d.pages.status| && pages.status[0] == RESERVED
            && got.value < |d.pages.status| && FreePage(d.pages, got.value) && got.value != 0
            && !On(d.pools, got.value)
            && TakenBlocks(pages) == TakenBlocks(d.pages) + {SlabBlock(got.value)}
            && SlabBlock(got.value) !in TakenBlocks(d.pages)
  {
    hide B.AllocOrder, TakenBlocks, Held;
    B.AllocTheorem(d.pages, 0);
    var (pages, got) := B.AllocOrder(d.pages, 0);
    var p := got.value;
    assert FreeRun(d.pages, p, 0);
    assert FreePage(d.pages, p);
    StaysReserved(d.pages, pages);
    forall i: nat, q: nat | i < POOLS && q in d.pools[i]
      ensures q != p
    {
      assert SlabOk(d, i, q);
    }
  }

  /** dyna_alloc: the new state, and the slab and slot of the object. */
  ghost function DynaAlloc(d: Dyna, size: nat): (r: (Dyna, Option<(nat, nat)>))
    requires SlabInv(d) && CanServe(d, size)
  {
    var k := PoolIdx(size);
    if k >= POOLS then (d, None)
    else
      FindAvailSlabTheorem(d, k);
      CapacityBounds(k);
      var (e, p) := FindAvailSlab(d, k);
      var (h, got) := AllocSlot(e.hdr[p]);
      (e.(hdr := e.hdr[p := h]), if got.None? then None else Some((p, got.value)))
  }

  /** Rewriting one header of a grown state. */
  lemma HeaderWritten(d: Dyna, e: Dyna, k: nat, p: nat, h: Header)
    requires SlabInv(d) && Grown(d, e, k, p) && p in e.pools[k] && HeaderOk(h, k)
    requires |e.pools[k]| > 1 ==> h.avail < h.capacity
    ensures SlabInv(e.(hdr := e.hdr[p := h]))
  {
    hide FreePage, TakenBlocks, Valid, On, NoDup, HeaderOk;
    var f := e.(hdr := e.hdr[p := h]);
    forall i: nat, q: nat | i < POOLS && q in f.pools[i]
      ensures SlabOk(f, i, q)
      ensures |f.pools[i]| > 1 ==> f.hdr[q].avail < f.hdr[q].capacity
    {
      assert SlabOk(e, i, q);
    }
  }

  /** dyna_alloc keeps the invariant.  It returns NULL exactly for sizes above 1024 and when the
      first slab of the class that is not full has all its usable slots live; otherwise it adds
      one live object, which was not live, in a slab of the least class that fits.  The page
      allocator loses at most one page, which was free. */
  lemma DynaAllocTheorem(d: Dyna, size: nat)
    requires SlabInv(d) && CanServe(d, size)
    ensures var (e, got) := DynaAlloc(d, size);
            && SlabInv(e) && |e.pages.status| == |d.pages.status|
            && (got.None? <==> PoolIdx(size) >= POOLS || Stuck(d, PoolIdx(size)))
            && (got.None? ==> forall q: nat, i: nat :: IsLive(e, q, i) <==> IsLive(d, q, i))
            && (got.None? ==> e.pages == d.pages && e.hdr.Keys == d.hdr.Keys)
            && (got.Some? ==>
                  var (p, j) := got.value;
                  && !IsLive(d, p, j) && e.hdr.Keys == d.hdr.Keys + {p} && e.hdr[p].objSize == ObjSize(PoolIdx(size))
                  && (forall q: nat, i: nat :: IsLive(e, q, i) <==> (q == p && i == j) || IsLive(d, q, i))
                  && if p in d.hdr then e.pages == d.pages
                     else TakenBlocks(e.pages) == TakenBlocks(d.pages) + {SlabBlock(p)}
                          && p < |d.pages.status| && FreePage(d.pages, p))
  {
    hide FreePage, B.AllocOrder, TakenBlocks, Valid, On, NoDup, Disjoint, AllocSlot, FirstAvail, Used, Slots;
    var k := PoolIdx(size);
    if k < POOLS {
      FindAvailSlabTheorem(d, k);
      CapacityBounds(k);
      var (e, p) := FindAvailSlab(d, k);
      var h := e.hdr[p];
      AllocSlotTheorem(h, k);
      var (h', got) := AllocSlot(h);
      if p !in d.hdr { FreshServes(k); }
      assert p in d.hdr && |e.pools[k]| > 1 ==> h.avail < h.capacity;
      HeaderWritten(d, e, k, p, h');
      assert !IsLive(e, p, if got.Some? then got.value else h.capacity);
    }
  }

  /** Where dyna_alloc finds a slab: the first of the class's list that is not full; when all are full, a
      page that page_alloc gives, which becomes the last of the list.  No other slab is touched. */
  lemma FoundExact(d: Dyna, k: nat)
    requires SlabInv(d) && k < POOLS && (NeedsSlab(d, k) ==> B.AllocOrder(d.pages, 0).1.Some?)
    ensures forall q :: q in d.pools[k] ==> q in d.hdr
    ensures var (e, p) := FindAvailSlab(d, k); var xs := d.pools[k];
            if forall q :: q in xs ==> d.hdr[q].avail == 0 then
              && B.AllocOrder(d.pages, 0) == (e.pages, Some(p))
              && e.pools == d.pools[k := xs + [p]] && e.hdr == d.hdr[p := Fresh(ObjSize(k))]
            else e == d && exists i: nat :: FirstWithRoom(d, xs, i, p)
  {
    hide B.AllocOrder, Valid, TakenBlocks, Disjoint, NoDup;
    PoolHeaders(d, k);
    var xs := d.pools[k];
    var i := FirstAvail(xs, d.hdr);
    if i < |xs| { assert xs[i] in xs && FirstWithRoom(d, xs, i, xs[i]); }
  }

  /** p is at position i, and the slabs before it are full. */
  ghost predicate FirstWithRoom(d: Dyna, xs: seq<nat>, i: nat, p: nat) {
    && i < |xs| && xs[i] == p && (forall q :: q in xs ==> q in d.hdr) && d.hdr[p].avail > 0
    && forall j :: 0 <= j < i ==> d.hdr[xs[j]].avail == 0
  }

  /** And what it does there: the first usable slot that is not live is handed out. */
  lemma ServedExact(d: Dyna, size: nat)
    requires SlabInv(d) && CanServe(d, size) && DynaAlloc(d, size).1.Some?
    ensures PoolIdx(size) < POOLS
    ensures var (e, got) := DynaAlloc(d, size); var (p, j) := got.value; var (f, q) := FindAvailSlab(d, PoolIdx(size));
            && p == q && p in e.hdr && e == f.(hdr := f.hdr[p := e.hdr[p]])
            && Usable(j) && !IsLive(d, p, j) && forall i: nat :: i < j && Usable(i) ==> IsLive(d, p, i)
  {
    hide B.AllocOrder, Valid, TakenBlocks, Disjoint, NoDup, FindAvailSlab, AllocSlot, FreePage, Usable, LiveSlot,
         SlabInv, HeaderOk, Used, Slots;
    var k := PoolIdx(size);
    FindAvailSlabTheorem(d, k);
    var (f, p) := FindAvailSlab(d, k);
    FoundRows(d, k);
    AllocSlotTheorem(f.hdr[p], k);
    var (h, got) := AllocSlot(f.hdr[p]);
    assert DynaAlloc(d, size) == (f.(hdr := f.hdr[p := h]), if got.None? then None else Some((p, got.value)));
    assert h == f.hdr[p := h][p];
    forall i: nat
      ensures IsLive(f, p, i) <==> IsLive(d, p, i)
    {
    }
  }

  lemma FoundRows(d: Dyna, k: nat)
    requires SlabInv(d) && k < POOLS && (NeedsSlab(d, k) ==> B.AllocOrder(d.pages, 0).1.Some?)
    ensures var (e, p) := FindAvailSlab(d, k);
            && Grown(d, e, k, p) && p in e.hdr && HeaderOk(e.hdr[p], k) && RowsOk(e.hdr[p].rows)
            && e.hdr[p].capacity <= 64 * ROWS && e.hdr[p].avail > 0
  {
    hide B.AllocOrder, Valid, TakenBlocks, FindAvailSlab, Grown;
    FindAvailSlabTheorem(d, k);
    CapacityBounds(k);
  }

  /** The first slab of the class that is not full has no usable slot left.  dyna_alloc returns
      NULL then, without trying another slab or another page. */
  ghost predicate Stuck(d: Dyna, k: nat)
    requires SlabInv(d) && k < POOLS
  {
    PoolHeaders(d, k);
    var i := FirstAvail(d.pools[k], d.hdr);
    i < |d.pools[k]| && var h := d.hdr[d.pools[k][i]]; Used(h.rows, h.capacity) == Slots(h.capacity)
  }

  lemma FreshServes(k: nat)
    requires k < POOLS
    ensures var h := Fresh(ObjSize(k)); Used(h.rows, h.capacity) < Slots(h.capacity)
  {
    var h := Fresh(ObjSize(k));
    CapacityBounds(k);
    UsedNone(h.rows, h.capacity);
    SlotsPositive(h.capacity);
  }

  lemma SlotsPositive(n: nat)
    requires n > 0
    ensures Slots(n) > 0
  {
    if n > 1 { SlotsPositive(n - 1); }
  }

  // ----- dyna_free -----

  /** dyna_free of the object in slot j of slab p, in class k.  A slab left empty goes back to the
      page allocator unless it is the only one of its class. */
  ghost function DynaFree(d: Dyna, k: nat, p: nat, j: nat): Dyna
    requires SlabInv(d) && k < POOLS && p in d.pools[k] && IsLive(d, p, j)
  {
    assert SlabOk(d, k, p);
    CapacityBounds(k);
    SlabPage(d, k, p);
    var h := FreeSlot(d.hdr[p], j);
    if h.avail == h.capacity && |d.pools[k]| > 1 then
      Dyna(B.FreeAt(d.pages, p), d.pools[k := Without(d.pools[k], p)], d.hdr - {p})
    else d.(hdr := d.hdr[p := h])
  }

  /** A slab is a block of one page. */
  lemma SlabPage(d: Dyna, k: nat, p: nat)
    requires SlabInv(d) && k < POOLS && p in d.pools[k]
    ensures p < |d.pages.status| && d.pages.status[p] == OCCUPIED && Ord(d.pages)[p] == 0 && d.pages.Sized()
  {
    assert SlabOk(d, k, p);
    assert Pow2(0) == 1;
    TakenCovers(d.pages, SlabBlock(p), p);
    assert Inv(d.pages, Ord(d.pages));
  }

  /** Giving up an empty slab. */
  lemma SlabReturned(d: Dyna, k: nat, p: nat)
    requires SlabInv(d) && k < POOLS && p in d.pools[k]
    ensures p < |d.pages.status| && d.pages.Sized()
    ensures var pages := B.FreeAt(d.pages, p);
            && Valid(pages) && |pages.status| == |d.pages.status| && pages.status[0] == RESERVED
            && TakenBlocks(pages) == TakenBlocks(d.pages) - {SlabBlock(p)}
  {
    hide B.FreeAt, TakenBlocks, Held;
    assert SlabOk(d, k, p);
    SlabPage(d, k, p);
    B.FreeTheorem(d.pages, p);
    StaysReserved(d.pages, B.FreeAt(d.pages, p));
  }

  /** dyna_free keeps the invariant and ends the life of just that object.  The slab's page goes
      back, if at all, when the slab is empty and others of its class remain. */
  lemma DynaFreeTheorem(d: Dyna, k: nat, p: nat, j: nat)
    requires SlabInv(d) && k < POOLS && p in d.pools[k] && IsLive(d, p, j)
    ensures var e := DynaFree(d, k, p, j);
            && SlabInv(e) && |e.pages.status| == |d.pages.status|
            && (forall q: nat, i: nat :: IsLive(e, q, i) <==> !(q == p && i == j) && IsLive(d, q, i))
            && e.hdr.Keys + {p} == d.hdr.Keys
            && if p in e.hdr then e.pages == d.pages
               else TakenBlocks(e.pages) == TakenBlocks(d.pages) - {SlabBlock(p)}
                    && (forall i: nat :: !IsLive(e, p, i)) && |d.pools[k]| > 1
  {
    hide FreePage, B.FreeAt, TakenBlocks, Valid, On, NoDup, Disjoint, FreeSlot, Used, Bit, Without;
    assert SlabOk(d, k, p);
    CapacityBounds(k);
    var h := FreeSlot(d.hdr[p], j);
    FreeSlotTheorem(d.hdr[p], k, j);
    if h.avail == h.capacity && |d.pools[k]| > 1 {
      SlabReturned(d, k, p);
      TakeOff(d.pools, k, p);
      EmptySlab(h, k);
      var e := DynaFree(d, k, p, j);
      forall i: nat, q: nat | i < POOLS && q in e.pools[i]
        ensures SlabOk(e, i, q)
        ensures |e.pools[i]| > 1 ==> e.hdr[q].avail < e.hdr[q].capacity
      {
        assert SlabOk(d, i, q);
      }
    } else {
      GrownSelf(d, k, p);
      HeaderWritten(d, d, k, p, h);
    }
  }

  /** A slab that goes back leaves its list, in which the others keep their order; nothing else of the
      slabs changes, and where none goes back, nothing but the one header. */
  lemma FreedExact(d: Dyna, k: nat, p: nat, j: nat)
    requires SlabInv(d) && k < POOLS && p in d.pools[k] && IsLive(d, p, j)
    ensures var e := DynaFree(d, k, p, j);
            if p in e.hdr then e == d.(hdr := d.hdr[p := e.hdr[p]])
            else |e.pools| == POOLS && e == Dyna(e.pages, d.pools[k := e.pools[k]], d.hdr - {p})
                 && exists i: nat :: CutAt(d.pools[k], p, e.pools[k], i)
  {
    hide Valid, TakenBlocks, B.FreeAt, FreeSlot, Disjoint, Without, IsLive;
    WithoutCuts(d.pools[k], p);
  }

  lemma GrownSelf(d: Dyna, k: nat, p: nat)
    requires SlabInv(d) && k < POOLS && p in d.pools[k]
    ensures p in d.hdr && Grown(d, d, k, p)
  {
    assert SlabOk(d, k, p);
  }
}
