/** Addresses of objects, and runs in which dyna_alloc, dyna_free and direct users of the page
    allocator take turns. */
module SlabRuns {
  import opened Machine
  import opened Bits
  import opened LinkedNodes
  import opened BuddyState
  import opened BuddyTheory
  import B = BuddyOps
  import R = BuddyReserve
  import P = PageAllocator
  import opened SlabState
  import opened SlabOps

  // ----- addresses -----

  /** The address alloc_obj returns for slot j of slab p. */
  function Address(p: nat, j: nat, objSize: nat): nat {
    p * PAGE_SIZE + ELEMENT_OFFSET + j * objSize
  }

  /** The slot free_obj finds for an offset into a slab, past its header. */
  function SlotAt(offset: nat, objSize: nat): nat
    requires offset >= ELEMENT_OFFSET && objSize > 0
  {
    (offset - ELEMENT_OFFSET) / objSize
  }

  /** Every byte of an object lies in the object's page, past the header, and leads back to the
      object's slot; so distinct objects share no byte. */
  lemma ByteOfObject(k: nat, p: nat, j: nat, o: nat)
    requires k < POOLS && j < Capacity(ObjSize(k)) && o < ObjSize(k)
    ensures var a := Address(p, j, ObjSize(k)) + o;
            && a / PAGE_SIZE == p && a % PAGE_SIZE >= ELEMENT_OFFSET
            && SlotAt(a % PAGE_SIZE, ObjSize(k)) == j
    ensures Address(p, j, ObjSize(k)) % 16 == 0
  {
    hide Capacity, ObjSize;
    CapacityBounds(k);
    SlotBytes(Capacity(ObjSize(k)), ObjSize(k), j, o);
    ByteAt(p, j * ObjSize(k), o);
    Sixteen(p, j, k);
  }

  /** What stands before the objects of a slab: the header of 284 bytes. */
  const PAGE_HEADER_SIZE: nat := 284

  /** The first object starts at the first multiple of 16 behind the header, and each of the others where
      the one before it ends. */
  lemma ObjectsAbut(p: nat, j: nat, objSize: nat, x: nat)
    ensures var a := Address(p, 0, objSize); var h := p * PAGE_SIZE + PAGE_HEADER_SIZE;
            a % 16 == 0 && h <= a && (h <= x && x % 16 == 0 ==> a <= x)
    ensures Address(p, j + 1, objSize) == Address(p, j, objSize) + objSize
  {
    assert (j + 1) * objSize == j * objSize + objSize;
  }

  lemma ByteAt(p: nat, x: nat, o: nat)
    requires ELEMENT_OFFSET + x + o < PAGE_SIZE
    ensures var a := p * PAGE_SIZE + ELEMENT_OFFSET + x + o;
            a / PAGE_SIZE == p && a % PAGE_SIZE == ELEMENT_OFFSET + x + o
  {
  }

  lemma SlotBytes(c: nat, s: nat, j: nat, o: nat)
    requires j < c && o < s && c * s + ELEMENT_OFFSET <= PAGE_SIZE
    ensures ELEMENT_OFFSET + j * s + o < PAGE_SIZE && (j * s + o) / s == j
  {
    MulLe(j + 1, c, s, s);
    assert (j + 1) * s == j * s + s;
    assert j * s == s * j;
    ModIs(j * s + o, s, j, o);
  }

  lemma Sixteen(p: nat, j: nat, k: nat)
    ensures Address(p, j, ObjSize(k)) % 16 == 0
  {
    assert j * (k * 16 + 16) == 16 * (j * (k + 1)) by { assert k * 16 + 16 == 16 * (k + 1); Assoc(j, k + 1); }
    assert Address(p, j, ObjSize(k)) == 16 * (p * 256 + 18 + j * (k + 1));
  }

  lemma Assoc(j: nat, m: nat)
    ensures j * (16 * m) == 16 * (j * m)
  {
  }

  /** Two-level ownership.  Every byte of a live object belongs to that object alone, and its
      page to the object's slab alone: the page is not free, and no other block, reserved or
      handed out by page_alloc, covers it. */
  lemma Ownership(d: Dyna, p: nat, j: nat, o: nat, q: nat, i: nat, o': nat)
    requires SlabInv(d) && IsLive(d, p, j) && o < d.hdr[p].objSize
    requires IsLive(d, q, i) && o' < d.hdr[q].objSize
    ensures var a := Address(p, j, d.hdr[p].objSize) + o;
            && a % PAGE_SIZE >= ELEMENT_OFFSET && Address(p, j, d.hdr[p].objSize) % 16 == 0
            && a / PAGE_SIZE == p < |d.pages.status| && !FreePage(d.pages, p)
            && (forall x :: x in TakenBlocks(d.pages) && x.head <= p < x.head + Pow2(x.order) ==> x == SlabBlock(p))
            && (a == Address(q, i, d.hdr[q].objSize) + o' ==> p == q && j == i && o == o')
  {
    var k := ClassOf(d, p);
    var k' := ClassOf(d, q);
    ByteOfObject(k, p, j, o);
    ByteOfObject(k', q, i, o');
    assert SlabOk(d, k, p);
    assert Pow2(0) == 1;
    TakenCovers(d.pages, SlabBlock(p), p);
    forall x | x in TakenBlocks(d.pages) && x.head <= p < x.head + Pow2(x.order)
      ensures x == SlabBlock(p)
    {
      TakenCovers(d.pages, x, p);
    }
  }

  /** The one class whose list holds slab p. */
  lemma ClassOf(d: Dyna, p: nat) returns (k: nat)
    requires SlabInv(d) && p in d.hdr
    ensures k < POOLS && p in d.pools[k] && SlabOk(d, k, p) && d.hdr[p].objSize == ObjSize(k)
    ensures PoolIdx(d.hdr[p].objSize) == k && d.hdr[p].capacity == Capacity(ObjSize(k))
  {
    k :| 0 <= k < POOLS && p in d.pools[k];
    assert SlabOk(d, k, p);
    SizeClasses(0, k);
  }

  /** How many live objects the slabs of a list hold. */
  ghost function LiveIn(hdr: map<nat, Header>, xs: seq<nat>): nat
    requires forall p :: p in xs ==> p in hdr && RowsOk(hdr[p].rows)
  {
    if xs == [] then 0 else Used(hdr[xs[0]].rows, hdr[xs[0]].capacity) + LiveIn(hdr, xs[1..])
  }

  lemma {:induction false} LiveInAtLeast(hdr: map<nat, Header>, xs: seq<nat>)
    requires forall p :: p in xs ==> p in hdr && RowsOk(hdr[p].rows) && Used(hdr[p].rows, hdr[p].capacity) > 0
    ensures LiveIn(hdr, xs) >= |xs|
  {
    if xs != [] {
      assert xs[0] in xs;
      LiveInAtLeast(hdr, xs[1..]);
    }
  }

  lemma SlabsHaveRows(d: Dyna, k: nat)
    requires SlabInv(d) && k < POOLS
    ensures forall p :: p in d.pools[k] ==> p in d.hdr && RowsOk(d.hdr[p].rows)
  {
    forall p | p in d.pools[k]
      ensures p in d.hdr && RowsOk(d.hdr[p].rows)
    {
      assert SlabOk(d, k, p);
    }
  }

  /** A class has one slab, or no more slabs than live objects; in the second case every slab of it
      holds one. */
  lemma FewSlabs(d: Dyna, k: nat)
    requires SlabInv(d) && k < POOLS
    ensures forall p :: p in d.pools[k] ==> p in d.hdr && RowsOk(d.hdr[p].rows)
    ensures |d.pools[k]| <= 1 || |d.pools[k]| <= LiveIn(d.hdr, d.pools[k])
    ensures |d.pools[k]| <= 1 || forall p :: p in d.pools[k] ==> exists j: nat :: IsLive(d, p, j)
  {
    SlabsHaveRows(d, k);
    if |d.pools[k]| > 1 {
      forall p | p in d.pools[k]
        ensures (exists j: nat :: IsLive(d, p, j)) && Used(d.hdr[p].rows, d.hdr[p].capacity) > 0
      {
        assert SlabOk(d, k, p);
        EmptySlab(d.hdr[p], k);
        var j :| LiveSlot(d.hdr[p], j);
        assert IsLive(d, p, j);
      }
      LiveInAtLeast(d.hdr, d.pools[k]);
    }
  }

  // ----- dyna_free by address -----

  ghost function PageOf(d: Dyna, target: nat): nat
    requires Valid(d.pages)
  {
    P.ToBlockIdx(target, |d.pages.status| * PAGE_SIZE)
  }

  /** dyna_free turns away an address on a page that is not allocated, in a slab's header, or past
      the slab's last slot; any other is taken for a byte of a live object. */
  ghost predicate Refused(d: Dyna, target: nat)
    requires Valid(d.pages) && PageOf(d, target) < |d.pages.status|
  {
    var p := PageOf(d, target);
    !R.IsAllocated(d.pages, p)
    || (p in d.hdr && d.hdr[p].objSize > 0
        && (target % PAGE_SIZE < ELEMENT_OFFSET || SlotAt(target % PAGE_SIZE, d.hdr[p].objSize) > d.hdr[p].capacity))
  }

  ghost predicate MayFree(d: Dyna, target: nat)
    requires Valid(d.pages)
  {
    var p := PageOf(d, target);
    p < |d.pages.status| &&
    (Refused(d, target)
     || (p in d.hdr && d.hdr[p].objSize > 0 && target % PAGE_SIZE >= ELEMENT_OFFSET
         && IsLive(d, p, SlotAt(target % PAGE_SIZE, d.hdr[p].objSize))))
  }

  /** dyna_free */
  ghost function FreeAddress(d: Dyna, target: nat): Dyna
    requires SlabInv(d) && MayFree(d, target)
  {
    if Refused(d, target) then d
    else
      var p := PageOf(d, target);
      ClassIsPool(d, p);
      DynaFree(d, PoolIdx(d.hdr[p].objSize), p, SlotAt(target % PAGE_SIZE, d.hdr[p].objSize))
  }

  /** The class recomputed from the header is the one whose list holds the slab. */
  lemma ClassIsPool(d: Dyna, p: nat)
    requires SlabInv(d) && p in d.hdr
    ensures PoolIdx(d.hdr[p].objSize) < POOLS && p in d.pools[PoolIdx(d.hdr[p].objSize)]
    ensures SlabOk(d, PoolIdx(d.hdr[p].objSize), p)
  {
    var k := ClassOf(d, p);
  }

  /** In bytes: an address in a slab is refused exactly if it lies in the header, or behind the place for
      one object more than the slab has; one that is in no allocated page always is. */
  lemma RefusedExact(d: Dyna, target: nat)
    requires SlabInv(d) && PageOf(d, target) < |d.pages.status|
    ensures !R.IsAllocated(d.pages, PageOf(d, target)) ==> Refused(d, target)
    ensures var p: nat := PageOf(d, target);
            R.IsAllocated(d.pages, p) && p in d.hdr ==>
              && p * PAGE_SIZE <= target < (p + 1) * PAGE_SIZE
              && var h := d.hdr[p]; var first := Address(p, 0, h.objSize);
                 Refused(d, target) <==> target < first || target >= first + (h.capacity + 1) * h.objSize
  {
    var p: nat := PageOf(d, target);
    if R.IsAllocated(d.pages, p) && p in d.hdr {
      ClassIsPool(d, p);
      var h := d.hdr[p];
      var off := target - p * PAGE_SIZE;
      assert target % PAGE_SIZE == off;
      if off >= ELEMENT_OFFSET { SlotPast(off - ELEMENT_OFFSET, h.capacity, h.objSize); }
    }
  }

  lemma SlotPast(x: nat, c: nat, s: nat)
    requires s > 0
    ensures x / s > c <==> x >= (c + 1) * s
  {
    var q := x / s;
    assert x == s * q + x % s;
    if q > c { MulLe(c + 1, q, s, s); }
    if q <= c { MulLe(q + 1, c + 1, s, s); assert (q + 1) * s == q * s + s; }
  }

  /** What the code finds behind an allocated address. */
  lemma FreeReady(d: Dyna, target: nat)
    requires SlabInv(d) && MayFree(d, target) && R.IsAllocated(d.pages, PageOf(d, target))
    ensures var p := PageOf(d, target);
            && p in d.hdr && RowsOk(d.hdr[p].rows) && d.hdr[p].objSize > 0 && d.hdr[p].capacity < 64 * ROWS
            && p * PAGE_SIZE <= target && target - p * PAGE_SIZE == target % PAGE_SIZE
            && (Refused(d, target) <==>
                  target % PAGE_SIZE < ELEMENT_OFFSET
                    || SlotAt(target % PAGE_SIZE, d.hdr[p].objSize) > d.hdr[p].capacity)
  {
    var p := PageOf(d, target);
    ClassIsPool(d, p);
    CapacityBounds(PoolIdx(d.hdr[p].objSize));
  }

  lemma RefusedIs(d: Dyna, target: nat)
    requires SlabInv(d) && MayFree(d, target) && Refused(d, target)
    ensures FreeAddress(d, target) == d
  {
  }

  /** dyna_free in the terms of its code. */
  lemma FreeAddressIs(d: Dyna, target: nat)
    requires SlabInv(d) && MayFree(d, target) && !Refused(d, target)
    ensures var p := PageOf(d, target); var h := d.hdr[p]; var k := PoolIdx(h.objSize);
            && k < POOLS && p in d.pools[k] && RowsOk(h.rows) && p < |d.pages.status| && d.pages.Sized()
            && SlabInv(FreeAddress(d, target))
            && SlotAt(target % PAGE_SIZE, h.objSize) < 64 * ROWS
            && var h' := FreeSlot(h, SlotAt(target % PAGE_SIZE, h.objSize));
               FreeAddress(d, target) ==
                 if h'.avail == h'.capacity && |d.pools[k]| > 1
                 then Dyna(B.FreeAt(d.pages, p), d.pools[k := Without(d.pools[k], p)], d.hdr - {p})
                 else d.(hdr := d.hdr[p := h'])
  {
    hide B.FreeAt, TakenBlocks, FreePage, IsLive, FreeSlot, Held, HeaderOk;
    var p := PageOf(d, target);
    var k := PoolIdx(d.hdr[p].objSize);
    ClassIsPool(d, p);
    SlabPage(d, k, p);
    LiveBound(d, p, SlotAt(target % PAGE_SIZE, d.hdr[p].objSize));
    DynaFreeTheorem(d, k, p, SlotAt(target % PAGE_SIZE, d.hdr[p].objSize));
  }

  lemma LiveBound(d: Dyna, p: nat, j: nat)
    requires SlabInv(d) && IsLive(d, p, j)
    ensures j < 64 * ROWS && RowsOk(d.hdr[p].rows)
  {
  }

  /** dyna_free of any byte of a live object frees that object. */
  lemma FreeAnyByte(d: Dyna, p: nat, j: nat, o: nat)
    requires SlabInv(d) && IsLive(d, p, j) && o < d.hdr[p].objSize
    ensures var a := Address(p, j, d.hdr[p].objSize) + o; var k := PoolIdx(d.hdr[p].objSize);
            && MayFree(d, a) && k < POOLS && p in d.pools[k]
            && FreeAddress(d, a) == DynaFree(d, k, p, j)
  {
    hide DynaFree, TakenBlocks, Valid, FreePage, Address;
    var k := ClassOf(d, p);
    ByteOfObject(k, p, j, o);
    SlabPage(d, k, p);
    SlabAllocated(d, k, p);
    assert Address(p, j, d.hdr[p].objSize) + o < |d.pages.status| * PAGE_SIZE;
  }

  lemma SlabAllocated(d: Dyna, k: nat, p: nat)
    requires SlabInv(d) && k < POOLS && p in d.pools[k]
    ensures p < |d.pages.status| && R.IsAllocated(d.pages, p)
  {
    SlabPage(d, k, p);
  }

  // ----- runs -----

  datatype Call =
    | Alloc(size: nat)                // dyna_alloc
    | Free(slab: nat, slot: nat)      // dyna_free of a live object
    | AllocPages(size: nat)           // page_alloc, by somebody else
    | FreePages(page: nat)            // page_free, of anything but a slab

  ghost predicate Allowed(d: Dyna, c: Call)
    requires SlabInv(d)
  {
    match c
    case Alloc(size) => CanServe(d, size)
    case Free(p, j) => IsLive(d, p, j)
    case AllocPages(size) => size < WORD
    case FreePages(page) => page < |d.pages.status| && page !in d.hdr
  }

  ghost function ClassIn(d: Dyna, p: nat): (k: nat)
    requires SlabInv(d) && p in d.hdr
    ensures k < POOLS && p in d.pools[k]
  {
    assert On(d.pools, p);
    var k :| 0 <= k < POOLS && p in d.pools[k];
    k
  }

  ghost function Apply(d: Dyna, c: Call): Dyna
    requires SlabInv(d) && Allowed(d, c)
  {
    match c
    case Alloc(size) => DynaAlloc(d, size).0
    case Free(p, j) => DynaFree(d, ClassIn(d, p), p, j)
    case AllocPages(size) => if size == 0 then d else d.(pages := B.AllocOrder(d.pages, P.OrderFor(size)).0)
    case FreePages(page) =>
      assert Inv(d.pages, Ord(d.pages));
      d.(pages := B.FreeAt(d.pages, page))
  }

  /** The blocks of the page allocator, reserved or handed out, that are no slabs. */
  ghost function Handed(d: Dyna): set<Block>
    requires Valid(d.pages)
  {
    set x | x in TakenBlocks(d.pages) && x.head !in d.hdr
  }

  /** The page allocator may change under the slabs as long as their blocks and the reserved
      ones stay. */
  lemma PagesChanged(d: Dyna, pages: Pages)
    requires SlabInv(d) && Valid(pages) && |pages.status| == |d.pages.status|
    requires forall x ::
               x in TakenBlocks(d.pages) && (x.kind == RESERVED || x.head in d.hdr) ==> x in TakenBlocks(pages)
    ensures SlabInv(d.(pages := pages))
    ensures forall p: nat, j: nat :: IsLive(d.(pages := pages), p, j) <==> IsLive(d, p, j)
  {
    hide TakenBlocks, Valid, On, NoDup, Disjoint, HeaderOk;
    StaysReserved(d.pages, pages);
    var e := d.(pages := pages);
    forall k: nat, p: nat | k < POOLS && p in e.pools[k]
      ensures SlabOk(e, k, p)
    {
      assert SlabOk(d, k, p);
    }
  }

  /** A page that becomes a slab, or ceases to be one, is no change for others. */
  lemma HandedKept(d: Dyna, e: Dyna, p: nat)
    requires Valid(d.pages) && Valid(e.pages) && p < |d.pages.status|
    requires TakenBlocks(e.pages) == TakenBlocks(d.pages) + {SlabBlock(p)} && e.hdr.Keys == d.hdr.Keys + {p}
    requires FreePage(d.pages, p)
    ensures Handed(e) == Handed(d)
  {
    forall x | x in TakenBlocks(d.pages)
      ensures x.head != p
    {
      assert Marked(d.pages.status, Ord(d.pages), p);
    }
    forall x
      ensures x in Handed(e) <==> x in Handed(d)
    {
      assert p in e.hdr.Keys && (x.head in e.hdr <==> x.head in d.hdr || x.head == p);
    }
  }

  lemma HandedKeptBack(d: Dyna, e: Dyna, p: nat)
    requires Valid(d.pages) && Valid(e.pages) && SlabBlock(p) in TakenBlocks(d.pages)
    requires TakenBlocks(e.pages) == TakenBlocks(d.pages) - {SlabBlock(p)} && e.hdr.Keys + {p} == d.hdr.Keys
    ensures Handed(e) == Handed(d)
  {
    forall x | x in TakenBlocks(d.pages) && x.head == p
      ensures x == SlabBlock(p)
    {
    }
    forall x
      ensures x in Handed(e) <==> x in Handed(d)
    {
      assert x.head in d.hdr.Keys <==> x.head in e.hdr.Keys || x.head == p;
    }
  }

  lemma AllocKeepsHanded(d: Dyna, size: nat)
    requires SlabInv(d) && CanServe(d, size)
    ensures Valid(DynaAlloc(d, size).0.pages) && Handed(DynaAlloc(d, size).0) == Handed(d)
  {
    hide FreePage, B.AllocOrder, Valid, DynaAlloc, Held, IsLive, HeaderOk;
    DynaAllocTheorem(d, size);
    var (e, got) := DynaAlloc(d, size);
    if got.Some? && got.value.0 !in d.hdr {
      HandedKept(d, e, got.value.0);
    } else if got.Some? {
      assert e.hdr.Keys == d.hdr.Keys;
    }
  }

  lemma FreeKeepsHanded(d: Dyna, k: nat, p: nat, j: nat)
    requires SlabInv(d) && k < POOLS && p in d.pools[k] && IsLive(d, p, j)
    ensures Valid(DynaFree(d, k, p, j).pages) && Handed(DynaFree(d, k, p, j)) == Handed(d)
  {
    hide FreePage, B.FreeAt, Valid, DynaFree, Held, HeaderOk;
    DynaFreeTheorem(d, k, p, j);
    assert SlabOk(d, k, p);
    var e := DynaFree(d, k, p, j);
    if p in e.hdr {
      assert e.hdr.Keys == d.hdr.Keys;
    } else {
      HandedKeptBack(d, e, p);
    }
  }

  /** One call, by anybody, keeps the invariant; dyna calls change no block that others hold, and
      page calls by others change no object. */
  lemma CallKeeps(d: Dyna, c: Call)
    requires SlabInv(d) && Allowed(d, c)
    ensures var e := Apply(d, c);
            && SlabInv(e) && |e.pages.status| == |d.pages.status|
            && (c.Alloc? || c.Free? ==> Handed(e) == Handed(d))
            && (c.AllocPages? || c.FreePages? ==> forall p: nat, j: nat :: IsLive(e, p, j) <==> IsLive(d, p, j))
  {
    hide FreePage, B.AllocOrder, B.FreeAt, Valid, DynaAlloc, DynaFree, Held, Handed, HeaderOk;
    match c {
      case Alloc(size) =>
        DynaAllocTheorem(d, size);
        AllocKeepsHanded(d, size);
      case Free(p, j) =>
        DynaFreeTheorem(d, ClassIn(d, p), p, j);
        FreeKeepsHanded(d, ClassIn(d, p), p, j);
      case AllocPages(size) =>
        if size != 0 {
          B.AllocTheorem(d.pages, P.OrderFor(size));
          PagesChanged(d, B.AllocOrder(d.pages, P.OrderFor(size)).0);
        }
      case FreePages(page) =>
        B.FreeTheorem(d.pages, page);
        PagesChanged(d, B.FreeAt(d.pages, page));
    }
  }

  ghost predicate Runs(d: Dyna, calls: seq<Call>, e: Dyna)
    requires SlabInv(d)
    decreases |calls|
  {
    if calls == [] then d == e
    else Allowed(d, calls[0]) && (CallKeeps(d, calls[0]); Runs(Apply(d, calls[0]), calls[1..], e))
  }

  /** Over every run of both allocators by any users, the invariant holds, and with it the
      ownership of every page and object. */
  lemma {:induction false} RunsKeep(d: Dyna, calls: seq<Call>, e: Dyna)
    requires SlabInv(d) && Runs(d, calls, e)
    ensures SlabInv(e) && |e.pages.status| == |d.pages.status|
    ensures (forall i :: 0 <= i < |calls| ==> calls[i].Alloc? || calls[i].Free?) ==> Handed(e) == Handed(d)
    ensures (forall i :: 0 <= i < |calls| ==> calls[i].AllocPages? || calls[i].FreePages?) ==>
              forall p: nat, j: nat :: IsLive(e, p, j) <==> IsLive(d, p, j)
    decreases |calls|
  {
    hide Apply, IsLive, Handed, SlabInv, Allowed;
    if calls != [] {
      CallKeeps(d, calls[0]);
      RunsKeep(Apply(d, calls[0]), calls[1..], e);
    }
  }

  // ----- a run that gets stuck -----

  /** While the one slab of a class has a usable slot, dyna_alloc takes it from there. */
  lemma AllocFromOnly(d: Dyna, k: nat, p: nat)
    requires SlabInv(d) && k < POOLS && d.pools[k] == [p] && p in d.hdr && RowsOk(d.hdr[p].rows)
    requires Used(d.hdr[p].rows, d.hdr[p].capacity) < Slots(d.hdr[p].capacity)
    ensures CanServe(d, ObjSize(k))
    ensures var e := DynaAlloc(d, ObjSize(k)).0;
            && SlabInv(e) && e.pools == d.pools && p in e.hdr && RowsOk(e.hdr[p].rows)
            && e.hdr[p].capacity == d.hdr[p].capacity
            && Used(e.hdr[p].rows, e.hdr[p].capacity) == Used(d.hdr[p].rows, d.hdr[p].capacity) + 1
  {
    hide Used, Slots, AllocSlot, Valid, TakenBlocks, B.AllocOrder, NewSlab;
    SizeClasses(0, k);
    PoolHeaders(d, k);
    var h := d.hdr[p];
    HeaderRows(h, k);
    assert h.avail > 0;
    FirstIs(d, k, p);
    DynaAllocTheorem(d, ObjSize(k));
    AllocSlotTheorem(h, k);
    HeaderRows(AllocSlot(h).0, k);
  }

  lemma FirstIs(d: Dyna, k: nat, p: nat)
    requires SlabInv(d) && k < POOLS && d.pools[k] == [p] && p in d.hdr && d.hdr[p].avail > 0
    ensures !NeedsSlab(d, k) && FindAvailSlab(d, k) == (d, p)
  {
    hide B.AllocOrder, Valid;
    PoolHeaders(d, k);
  }

  lemma {:induction false} FillOnly(d: Dyna, k: nat, p: nat, n: nat) returns (calls: seq<Call>, e: Dyna)
    requires SlabInv(d) && k < POOLS && d.pools[k] == [p] && p in d.hdr && RowsOk(d.hdr[p].rows)
    requires Used(d.hdr[p].rows, d.hdr[p].capacity) + n == Slots(d.hdr[p].capacity)
    ensures Runs(d, calls, e) && SlabInv(e) && e.pools[k] == [p] && p in e.hdr && RowsOk(e.hdr[p].rows)
    ensures Used(e.hdr[p].rows, e.hdr[p].capacity) == Slots(e.hdr[p].capacity)
    ensures forall i :: 0 <= i < |calls| ==> calls[i] == Alloc(ObjSize(k))
    decreases n
  {
    hide Used, Slots, SlabInv, CanServe, DynaAlloc;
    calls, e := [], d;
    if n > 0 {
      AllocFromOnly(d, k, p);
      var c := Alloc(ObjSize(k));
      CallKeeps(d, c);
      var rest;
      rest, e := FillOnly(Apply(d, c), k, p, n - 1);
      calls := [c] + rest;
      assert calls[0] == c && calls[1..] == rest;
    }
  }

  /** In every class below 128 bytes, allocating again and again from an empty pool leads to a state
      in which dyna_alloc returns NULL, although the slab at hand counts slots as available. */
  lemma GetsStuck(d: Dyna, k: nat) returns (calls: seq<Call>, e: Dyna)
    requires SlabInv(d) && k < POOLS && ObjSize(k) < 128 && d.pools[k] == [] && B.AllocOrder(d.pages, 0).1.Some?
    ensures Runs(d, calls, e) && SlabInv(e) && Stuck(e, k)
    ensures forall i :: 0 <= i < |calls| ==> calls[i] == Alloc(ObjSize(k))
    ensures CanServe(e, ObjSize(k)) && DynaAlloc(e, ObjSize(k)).1.None?
  {
    hide Used, Slots, SlabInv, Valid, TakenBlocks, B.AllocOrder, AllocSlot;
    SizeClasses(0, k);
    CapacityBounds(k);
    FirstSlab(d, k);
    var c := Alloc(ObjSize(k));
    CallKeeps(d, c);
    var m := Apply(d, c);
    assert m == DynaAlloc(d, ObjSize(k)).0;
    var p := m.pools[k][0];
    PoolHeaders(m, k);
    HeaderRows(m.hdr[p], k);
    UsedAll(m.hdr[p].rows, m.hdr[p].capacity);
    var rest;
    rest, e := FillOnly(m, k, p, Slots(m.hdr[p].capacity) - Used(m.hdr[p].rows, m.hdr[p].capacity));
    calls := [c] + rest;
    assert calls[0] == c && calls[1..] == rest;
    PoolHeaders(e, k);
    HeaderRows(e.hdr[p], k);
    FirstIs(e, k, p);
    DynaAllocTheorem(e, ObjSize(k));
  }

  /** The larger classes never get stuck. */
  lemma NeverStuck(d: Dyna, k: nat)
    requires SlabInv(d) && k < POOLS && ObjSize(k) >= 128
    ensures !Stuck(d, k)
  {
    hide Used, Slots, Valid, TakenBlocks;
    CapacityBounds(k);
    PoolHeaders(d, k);
  }

  lemma FirstSlab(d: Dyna, k: nat)
    requires SlabInv(d) && k < POOLS && d.pools[k] == [] && B.AllocOrder(d.pages, 0).1.Some?
    ensures CanServe(d, ObjSize(k))
    ensures var e := DynaAlloc(d, ObjSize(k)).0; |e.pools| == POOLS && |e.pools[k]| == 1
  {
    hide Valid, TakenBlocks, B.AllocOrder;
    SizeClasses(0, k);
    PoolHeaders(d, k);
  }

  // ----- when a small class refuses -----

  /** Every class below 128 bytes has one slab at most. */
  ghost predicate OneSlab(d: Dyna) {
    forall k: nat :: k < |d.pools| && ObjSize(k) < 128 ==> |d.pools[k]| <= 1
  }

  /** A slab of a small class is never full, because it has slots that cannot be used; so the class
      asks for a page only while it has none. */
  lemma SmallNeedsFirst(d: Dyna, k: nat)
    requires SlabInv(d) && k < POOLS && ObjSize(k) < 128
    ensures NeedsSlab(d, k) <==> d.pools[k] == []
  {
    hide Used, Slots, Valid, TakenBlocks;
    PoolHeaders(d, k);
    CapacityBounds(k);
    forall p | p in d.pools[k]
      ensures d.hdr[p].avail > 0
    {
      HeaderRows(d.hdr[p], k);
      UsedAll(d.hdr[p].rows, d.hdr[p].capacity);
    }
  }

  lemma AllocOneSlab(d: Dyna, size: nat)
    requires SlabInv(d) && CanServe(d, size) && OneSlab(d)
    ensures OneSlab(DynaAlloc(d, size).0)
  {
    hide Valid, TakenBlocks, B.AllocOrder, AllocSlot, On, NoDup, Disjoint, Used;
    var k := PoolIdx(size);
    if k < POOLS && ObjSize(k) < 128 { SmallNeedsFirst(d, k); }
  }

  lemma FreeOneSlab(d: Dyna, k: nat, p: nat, j: nat)
    requires SlabInv(d) && k < POOLS && p in d.pools[k] && IsLive(d, p, j) && OneSlab(d)
    ensures OneSlab(DynaFree(d, k, p, j))
  {
    hide Valid, TakenBlocks, B.FreeAt, FreeSlot, On, NoDup, Disjoint, Used, Without;
  }

  /** How many objects of a class are live. */
  ghost function LiveOf(d: Dyna, k: nat): nat
    requires SlabInv(d) && k < POOLS
  {
    SlabsHaveRows(d, k);
    LiveIn(d.hdr, d.pools[k])
  }

  lemma LiveOfOne(d: Dyna, k: nat, p: nat)
    requires SlabInv(d) && k < POOLS && d.pools[k] == [p] && p in d.hdr && RowsOk(d.hdr[p].rows)
    ensures LiveOf(d, k) == Used(d.hdr[p].rows, d.hdr[p].capacity)
  {
    hide Used, Valid, TakenBlocks;
    SlabsHaveRows(d, k);
    var xs := d.pools[k];
    assert xs[1..] == [] && LiveIn(d.hdr, xs[1..]) == 0;
  }

  /** What the code finds in the one slab of a class. */
  lemma OnlySlab(d: Dyna, k: nat)
    requires SlabInv(d) && k < POOLS && |d.pools[k]| == 1
    ensures var p := d.pools[k][0]; var c := Capacity(ObjSize(k));
            && p in d.hdr && RowsOk(d.hdr[p].rows) && d.hdr[p].capacity == c <= 64 * ROWS
            && LiveOf(d, k) == Used(d.hdr[p].rows, c) <= Slots(c)
  {
    hide Used, Slots, Valid, TakenBlocks, Capacity, ObjSize, LiveOf;
    var p := d.pools[k][0];
    PoolHeaders(d, k);
    CapacityBounds(k);
    HeaderRows(d.hdr[p], k);
    UsedAll(d.hdr[p].rows, d.hdr[p].capacity);
    LiveOfOne(d, k, p);
  }

  /** With one slab, a small class is stuck exactly when its live objects are as many as its slab has
      usable slots. */
  lemma StuckExactly(d: Dyna, k: nat)
    requires SlabInv(d) && k < POOLS && ObjSize(k) < 128 && |d.pools[k]| <= 1
    ensures LiveOf(d, k) <= Slots(Capacity(ObjSize(k)))
    ensures Stuck(d, k) <==> LiveOf(d, k) == Slots(Capacity(ObjSize(k)))
  {
    hide Used, Slots, Valid, TakenBlocks, Capacity;
    CapacityBounds(k);
    SmallNeedsFirst(d, k);
    SlotsPositive(Capacity(ObjSize(k)));
    if d.pools[k] != [] {
      OnlySlab(d, k);
    }
  }

  lemma {:induction false} LiveInSame(hdr: map<nat, Header>, hdr': map<nat, Header>, xs: seq<nat>)
    requires forall p :: p in xs ==> p in hdr && p in hdr' && hdr[p] == hdr'[p] && RowsOk(hdr[p].rows)
    ensures LiveIn(hdr, xs) == LiveIn(hdr', xs)
  {
    if xs != [] {
      assert xs[0] in xs;
      LiveInSame(hdr, hdr', xs[1..]);
    }
  }

  /** dyna_alloc leaves the slabs of the other classes as they are. */
  lemma OtherClass(d: Dyna, size: nat, k: nat)
    requires SlabInv(d) && CanServe(d, size) && k < POOLS && k != PoolIdx(size)
    ensures var e := DynaAlloc(d, size).0;
            && SlabInv(e) && e.pools[k] == d.pools[k] && LiveOf(e, k) == LiveOf(d, k) && (Stuck(e, k) <==> Stuck(d, k))
  {
    hide Used, Slots, Valid, TakenBlocks, B.AllocOrder, AllocSlot, IsLive, DynaAlloc, On, NoDup, Disjoint, HeaderOk;
    DynaAllocTheorem(d, size);
    OtherSlabs(d, size, k);
    SlabsHaveRows(d, k);
    var e := DynaAlloc(d, size).0;
    LiveInSame(d.hdr, e.hdr, d.pools[k]);
    PoolHeaders(d, k);
    PoolHeaders(e, k);
    FirstAvailSame(d.pools[k], d.hdr, e.hdr);
  }

  lemma OtherSlabs(d: Dyna, size: nat, k: nat)
    requires SlabInv(d) && CanServe(d, size) && k < POOLS && k != PoolIdx(size)
    ensures var e := DynaAlloc(d, size).0;
            && |e.pools| == POOLS && e.pools[k] == d.pools[k]
            && forall p :: p in d.pools[k] ==> p in d.hdr && p in e.hdr && e.hdr[p] == d.hdr[p]
  {
    hide Used, Slots, Valid, TakenBlocks, B.AllocOrder, AllocSlot, FirstAvail;
    PoolHeaders(d, k);
    var c := PoolIdx(size);
    if c < POOLS {
      FindAvailSlabTheorem(d, c);
      var p := FindAvailSlab(d, c).1;
      if NeedsSlab(d, c) { NewSlabPage(d); }
      assert p !in d.pools[k];
    }
  }

  lemma {:induction false} FirstAvailSame(xs: seq<nat>, hdr: map<nat, Header>, hdr': map<nat, Header>)
    requires forall p :: p in xs ==> p in hdr && p in hdr' && hdr'[p] == hdr[p]
    ensures FirstAvail(xs, hdr') == FirstAvail(xs, hdr)
  {
    if xs != [] { FirstAvailSame(xs[1..], hdr, hdr'); }
  }

  /** In a small class with one slab, one more object is live after dyna_alloc has served it. */
  lemma ServedLive(d: Dyna, size: nat)
    requires SlabInv(d) && CanServe(d, size) && PoolIdx(size) < POOLS && ObjSize(PoolIdx(size)) < 128 && OneSlab(d)
    ensures var (e, got) := DynaAlloc(d, size); var k := PoolIdx(size);
            SlabInv(e) && OneSlab(e) && LiveOf(e, k) == if got.Some? then LiveOf(d, k) + 1 else LiveOf(d, k)
  {
    hide Used, Slots, Valid, TakenBlocks, B.AllocOrder, AllocSlot, IsLive, Capacity, LiveOf, FindAvailSlab, HeaderOk,
         FreePage, On, NoDup, Disjoint;
    var k := PoolIdx(size);
    DynaAllocTheorem(d, size);
    AllocOneSlab(d, size);
    FindAvailSlabTheorem(d, k);
    OneFound(d, k);
    var (m, p) := FindAvailSlab(d, k);
    CapacityBounds(k);
    HeaderRows(m.hdr[p], k);
    AllocCounts(m.hdr[p], k);
    var e := DynaAlloc(d, size).0;
    assert e.pools[k] == [p] && e.hdr[p] == AllocSlot(m.hdr[p]).0;
    assert m.hdr[p].capacity == Capacity(ObjSize(k));
    OnlySlab(e, k);
    if d.pools[k] != [] { OnlySlab(d, k); }
  }

  /** find_avail_slab in a small class takes the one slab, or adds it. */
  lemma OneFound(d: Dyna, k: nat)
    requires SlabInv(d) && k < POOLS && ObjSize(k) < 128 && OneSlab(d)
    requires NeedsSlab(d, k) ==> B.AllocOrder(d.pages, 0).1.Some?
    ensures var (m, p) := FindAvailSlab(d, k);
            && |m.pools| == POOLS && m.pools[k] == [p] && p in m.hdr
            && if d.pools[k] == [] then LiveOf(d, k) == 0 && m.hdr[p].avail == m.hdr[p].capacity
               else d.pools[k] == [p] && m == d
  {
    hide Valid, TakenBlocks, B.AllocOrder, Used;
    SmallNeedsFirst(d, k);
    PoolHeaders(d, k);
  }

  /** Over every run, a class below 128 bytes that starts with no slab or one never has a second, and
      dyna_alloc returns NULL exactly when as many objects of the class are live as its slab has
      usable slots. */
  lemma {:induction false} SmallClasses(d: Dyna, calls: seq<Call>, e: Dyna, size: nat)
    requires SlabInv(d) && OneSlab(d) && Runs(d, calls, e)
    ensures SlabInv(e) && OneSlab(e)
    ensures var k := PoolIdx(size);
            k < POOLS && ObjSize(k) < 128 && CanServe(e, size) ==>
              (DynaAlloc(e, size).1.None? <==> LiveOf(e, k) == Slots(Capacity(ObjSize(k))))
    decreases |calls|
  {
    hide Apply, SlabInv, CanServe, DynaAlloc, Slots, Capacity, LiveOf;
    if calls == [] {
      var k := PoolIdx(size);
      if k < POOLS && ObjSize(k) < 128 && CanServe(e, size) {
        DynaAllocTheorem(e, size);
        AtMostOne(e, k);
        StuckExactly(e, k);
      }
    } else {
      CallKeeps(d, calls[0]);
      CallOneSlab(d, calls[0]);
      SmallClasses(Apply(d, calls[0]), calls[1..], e, size);
    }
  }

  lemma AtMostOne(d: Dyna, k: nat)
    requires SlabInv(d) && OneSlab(d) && k < POOLS && ObjSize(k) < 128
    ensures |d.pools[k]| <= 1
  {
  }

  lemma CallOneSlab(d: Dyna, c: Call)
    requires SlabInv(d) && Allowed(d, c) && OneSlab(d)
    ensures OneSlab(Apply(d, c))
  {
    hide SlabInv, DynaAlloc, DynaFree;
    match c {
      case Alloc(size) => AllocOneSlab(d, size);
      case Free(p, j) => FreeOneSlab(d, ClassIn(d, p), p, j);
      case _ =>
    }
  }

  /** The usable slots: 32 in every 64. */
  lemma {:induction false} SlotsAre(q: nat, r: nat)
    requires r <= 64
    ensures Slots(64 * q + r) == 32 * q + if r < 32 then r else 32
  {
    if r > 0 {
      SlotsAre(q, r - 1);
      assert (64 * q + (r - 1)) % 64 == r - 1;
    } else if q > 0 {
      SlotsAre(q - 1, 64);
    }
  }

  /** In the class of 16 bytes, 128. */
  lemma SlotsOfSixteen()
    ensures PoolIdx(12) == PoolIdx(16) == 0 && ObjSize(0) == 16 && Slots(Capacity(16)) == 128
  {
    hide Slots;
    SlotsAre(3, 46);
    assert Capacity(16) == 64 * 3 + 46;
  }
}
