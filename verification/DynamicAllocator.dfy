/** lib/allocator/dynamic_allocator.c in place: page headers, pool heads and the nodes between
    them are overwritten, over a page allocator of its own. */
module DynamicAllocator {
  import opened Machine
  import opened LinkedNodes
  import opened BuddyState
  import opened BuddyTheory
  import B = BuddyOps
  import R = BuddyReserve
  import opened PageAllocator
  import opened SlabState
  import opened SlabOps
  import opened SlabRuns

  class DynaAllocator {
    const pages: Allocator
    /** What the start of every page reads as a page header; on other pages it is whatever their
        users left there. */
    const headers: array<Header>
    const nodes: Nodes
    const pool: array<int>
    ghost var lists: seq<seq<nat>>

    ghost predicate Apart()
      reads this, pages, nodes
    {
      && nodes.Valid() && pages.nodes.Valid() && pages.nodes != nodes
      && headers.Length == nodes.next.Length == pages.status.Length
      && pool.Length == POOLS
      && {pool, nodes.prev, nodes.next} !! {pages.status, pages.freeList, pages.nodes.prev, pages.nodes.next}
      && pool != nodes.prev && pool != nodes.next
    }

    /** The pool heads and slab nodes hold the lists. */
    ghost predicate Wired()
      reads this, pages, nodes, nodes.prev, nodes.next, pool
    {
      && Apart() && |lists| == POOLS && Linked(nodes.View(), lists)
      && forall k: nat :: k < POOLS ==> pool[k] == At(lists[k], 0)
    }

    ghost function Slabs(): (m: map<nat, Header>)
      reads this, headers
    {
      map p: nat | p < headers.Length && On(lists, p) :: headers[p]
    }

    ghost function State(): Dyna
      reads this, headers, pages, pages.status
    {
      Dyna(pages.State(), lists, Slabs())
    }

    ghost predicate Valid()
      reads this, pages, nodes, nodes.prev, nodes.next, pool, headers
      reads pages.status, pages.nodes, pages.nodes.prev, pages.nodes.next, pages.freeList
    {
      Wired() && pages.Valid() && SlabInv(State())
    }

    /** init_memory_pool, after start-up has reserved page 0 */
    constructor (p: Allocator)
      requires p.Valid() && p.status.Length > 0 && p.status[0] == RESERVED
      ensures Valid() && pages == p
      ensures State() == Dyna(old(p.State()), seq(POOLS, _ => []), map[])
    {
      hide SlabInv, BuddyTheory.Valid;
      NoSlabs(p.State());
      pages := p;
      headers := new Header[p.status.Length];
      nodes := new Nodes(p.status.Length);
      pool := new int[POOLS];
      lists := seq(POOLS, _ => []);
      new;
      for i := 0 to POOLS
        invariant forall k :: 0 <= k < i ==> pool[k] == NULL
        modifies pool
      {
        pool[i] := NULL;
      }
    }

    static lemma NoSlabs(p: Pages)
      requires BuddyTheory.Valid(p) && |p.status| > 0 && p.status[0] == RESERVED
      ensures SlabInv(Dyna(p, seq(POOLS, _ => []), map[]))
    {
    }

    // ----- slabs -----

    /** page_alloc of one page and init_page_header: a page for a new slab, on no list yet. */
    method NewPage(k: nat) returns (p: nat)
      requires Valid() && k < POOLS && B.AllocOrder(pages.State(), 0).1.Some?
      modifies pages`lists, pages.status, pages.freeList, pages.nodes.prev, pages.nodes.next
      modifies headers, nodes.prev, nodes.next
      ensures pages.Valid() && (pages.State(), Some(p)) == B.AllocOrder(old(pages.State()), 0)
      ensures Wired() && p < headers.Length && !On(lists, p)
      ensures headers[..] == old(headers[..])[p := Fresh(ObjSize(k))]
      ensures nodes.next[p] == NULL && nodes.prev[p] == NULL
    {
      hide B.AllocOrder, TakenBlocks, FreePage, BuddyTheory.Valid;
      NewSlabPage(State());
      OnePage();
      ghost var got;
      var addr;
      addr, got := pages.PageAlloc(PAGE_SIZE);
      p := addr / PAGE_SIZE;
      InitUnlisted(nodes.View(), lists, p);
      nodes.Init(p);
      headers[p] := Fresh(ObjSize(k));
    }

    static lemma OnePage()
      ensures OrderFor(PAGE_SIZE) == 0
    {
    }

    /** list_add at the end of a pool's list, or the pool's first slab. */
    method Link(k: nat, tail: int, p: nat)
      requires Wired() && k < POOLS && p < headers.Length && !On(lists, p)
      requires tail == At(lists[k], |lists[k]| - 1) && nodes.next[p] == NULL && nodes.prev[p] == NULL
      modifies this`lists, pool, nodes.prev, nodes.next
      ensures Wired() && lists == old(lists)[k := old(lists[k]) + [p]]
      ensures Slabs() == old(Slabs())[p := headers[p]]
    {
      hide Linked, On, Disjoint, NoDup;
      PushBack(nodes.View(), lists, k, p);
      LinkedDisjoint(nodes.View(), lists);
      Append(lists, k, p);
      assert pool[k] == At(lists[k], 0);
      if pool[k] == NULL {
        assert AddLinks(nodes.View(), p, NULL, NULL) == nodes.View();
        pool[k] := p;
      } else {
        nodes.Add(p, tail, NULL);
      }
      lists := lists[k := lists[k] + [p]];
    }

    static lemma LinkedDisjoint(l: Links, lists: seq<seq<nat>>)
      requires Linked(l, lists)
      ensures Disjoint(lists) && forall i: nat :: i < |lists| ==> NoDup(lists[i])
    {
    }

    /** A new page on the end of a pool's list. */
    method AddSlab(k: nat, tail: int) returns (p: nat)
      requires Valid() && k < POOLS && B.AllocOrder(pages.State(), 0).1.Some?
      requires tail == At(lists[k], |lists[k]| - 1)
      modifies this`lists, pool, headers, nodes.prev, nodes.next
      modifies pages`lists, pages.status, pages.freeList, pages.nodes.prev, pages.nodes.next
      ensures Wired() && pages.Valid() && (State(), p) == NewSlab(old(State()), k)
      ensures p < headers.Length && headers[p] == Fresh(ObjSize(k))
      ensures lists == old(lists)[k := old(lists[k]) + [p]]
    {
      hide SlabInv, B.AllocOrder, Linked, BuddyTheory.Valid;
      ghost var before := Slabs();
      p := NewPage(k);
      assert Slabs() == before;
      Link(k, tail, p);
    }

    lemma WiredAt(k: nat, i: nat)
      requires Wired() && k < POOLS && i < |lists[k]|
      ensures lists[k][i] < headers.Length && nodes.next[lists[k][i]] == At(lists[k], i + 1)
      ensures nodes.prev[lists[k][i]] == At(lists[k], i - 1)
    {
      assert Placed(nodes.View(), lists[k], i);
    }

    /** find_avail_slab */
    method FindAvailSlab(k: nat) returns (slab: int)
      requires Valid() && (k < POOLS && NeedsSlab(State(), k) ==> B.AllocOrder(pages.State(), 0).1.Some?)
      modifies this`lists, pool, headers, nodes.prev, nodes.next
      modifies pages`lists, pages.status, pages.freeList, pages.nodes.prev, pages.nodes.next
      ensures Wired() && pages.Valid()
      ensures if k >= POOLS then slab == NULL && State() == old(State())
              else 0 <= slab < headers.Length && (State(), slab as nat) == SlabOps.FindAvailSlab(old(State()), k)
    {
      hide SlabInv, Linked, FirstAvail, BuddyTheory.Valid, NewSlab, B.AllocOrder, FreePage,
           SlabOps.FindAvailSlab, NeedsSlab;
      if k >= POOLS {
        return NULL;
      }
      CapacityBounds(k);
      ghost var d, i, grown := State(), 0, false;
      FindAvailIs(d, k, 0);
      assert pool[k] == At(lists[k], 0);
      if pool[k] == NULL {
        var p := AddSlab(k, NULL);
        grown := true;
      }
      WiredAt(k, 0);
      slab := pool[k];
      while headers[slab].avail == 0
        invariant 0 <= slab < headers.Length && pool.Length == POOLS
        invariant !grown ==> Valid() && State() == d && i < |lists[k]| && slab == lists[k][i]
        invariant !grown ==> forall j :: 0 <= j < i ==> lists[k][j] in d.hdr && d.hdr[lists[k][j]].avail == 0
        invariant grown ==> Wired() && pages.Valid() && headers[slab].avail > 0
        invariant grown ==> (State(), slab as nat) == SlabOps.FindAvailSlab(d, k)
        decreases if grown then 0 else |lists[k]| - i
      {
        WiredAt(k, i);
        SlabAt(k, i);
        FindAvailIs(d, k, i + 1);
        if nodes.next[slab] == NULL {
          var p := AddSlab(k, slab);
          grown := true;
        }
        WiredAt(k, i);
        slab := nodes.next[slab];
        i := i + 1;
        WiredAt(k, i);
      }
      if !grown {
        SlabAt(k, i);
        FindAvailIs(d, k, i);
      }
    }

    lemma SlabAt(k: nat, i: nat)
      requires Valid() && k < POOLS && i < |lists[k]|
      ensures lists[k][i] in State().hdr && State().hdr[lists[k][i]] == headers[lists[k][i]]
    {
      WiredAt(k, i);
      assert lists[k][i] in lists[k];
    }

    // ----- dyna_alloc -----

    /** fill_bitmap; the size_t -1 when there is no clear bit */
    method FillBitmap(slab: nat) returns (idx: nat)
      requires slab < headers.Length && RowsOk(headers[slab].rows) && headers[slab].capacity <= 64 * ROWS
      modifies headers
      ensures var h := old(headers[slab]); var (rows, got) := Fill(h.rows, 0, (h.capacity + 63) / 64);
              && headers[..] == old(headers[..])[slab := h.(rows := rows)]
              && idx == if got.Some? then got.value else WORD - 1
    {
      ghost var h := headers[slab];
      var totalRow := (headers[slab].capacity + 63) / 64;
      for i := 0 to totalRow
        invariant headers[..] == old(headers[..])
        invariant Fill(h.rows, i, totalRow) == Fill(h.rows, 0, totalRow)
      {
        var row := headers[slab].rows[i];
        if forall b :: 0 <= b < 64 ==> row[b] {
          assert FirstZero(row, 0) == 64;
          continue;
        }
        for bit := 0 to 64
          invariant headers[..] == old(headers[..])
          invariant FirstZero(row, bit) == FirstZero(row, 0)
        {
          if !row[bit] {
            headers[slab] := headers[slab].(rows := WriteSlot(headers[slab].rows, 64 * i + bit, true));
            return 64 * i + bit;
          }
        }
      }
      assert Fill(h.rows, 0, totalRow) == (h.rows, None);
      assert headers[slab] == h.(rows := h.rows);
      return WORD - 1;
    }

    /** alloc_obj: the object's address, or NULL */
    method AllocObj(slab: nat) returns (addr: nat)
      requires slab < headers.Length && RowsOk(headers[slab].rows)
      requires headers[slab].capacity <= 64 * ROWS && headers[slab].avail > 0
      modifies headers
      ensures var h := old(headers[slab]); var (h', got) := AllocSlot(h);
              && headers[..] == old(headers[..])[slab := h']
              && addr == if got.None? then 0 else Address(slab, got.value, h.objSize)
    {
      hide Fill, RowsOk;
      var idx := FillBitmap(slab);
      if idx >= headers[slab].capacity {
        return 0;
      }
      headers[slab] := headers[slab].(avail := headers[slab].avail - 1);
      addr := slab * PAGE_SIZE + ELEMENT_OFFSET + idx * headers[slab].objSize;
    }

    /** dyna_alloc */
    method DynaAlloc(size: nat) returns (addr: nat)
      requires Valid() && size < WORD && CanServe(State(), size)
      modifies this`lists, pool, headers, nodes.prev, nodes.next
      modifies pages`lists, pages.status, pages.freeList, pages.nodes.prev, pages.nodes.next
      ensures Valid()
      ensures var (e, got) := SlabOps.DynaAlloc(old(State()), size);
              && State() == e
              && addr == if got.None? then 0 else Address(got.value.0, got.value.1, ObjSize(PoolIdx(size)))
    {
      hide SlabInv, Linked, BuddyTheory.Valid, SlabOps.FindAvailSlab, SlabOps.DynaAlloc, NeedsSlab, AllocSlot,
           Address, RowsOk, CanServe;
      var k := PoolIdx(size);
      ghost var d := State();
      DynaAllocIs(d, size);
      var slab := FindAvailSlab(k);
      if slab == NULL {
        return 0;
      }
      ghost var e := State();
      assert headers[slab] == e.hdr[slab];
      addr := AllocObj(slab);
      assert State().hdr == e.hdr[slab := headers[slab]];
    }

    /** dyna_alloc in the terms of its code. */
    static lemma DynaAllocIs(d: Dyna, size: nat)
      requires SlabInv(d) && CanServe(d, size)
      ensures var k := PoolIdx(size); var r := SlabOps.DynaAlloc(d, size);
              && SlabInv(r.0)
              && (k >= POOLS ==> r == (d, None))
              && (k < POOLS ==>
                    && (NeedsSlab(d, k) ==> B.AllocOrder(d.pages, 0).1.Some?)
                    && var (e, p) := SlabOps.FindAvailSlab(d, k);
                       && p in e.hdr && RowsOk(e.hdr[p].rows) && e.hdr[p].capacity <= 64 * ROWS && e.hdr[p].avail > 0
                       && e.hdr[p].objSize == ObjSize(k)
                       && var (h, got) := AllocSlot(e.hdr[p]);
                          r.0 == e.(hdr := e.hdr[p := h])
                          && r.1 == if got.None? then None else Some((p, got.value)))
    {
      hide SlabInv, SlabOps.FindAvailSlab, AllocSlot, B.AllocOrder, FreePage, TakenBlocks, IsLive;
      DynaAllocTheorem(d, size);
      if PoolIdx(size) < POOLS {
        FindAvailSlabTheorem(d, PoolIdx(size));
        CapacityBounds(PoolIdx(size));
      }
    }

    // ----- dyna_free -----

    /** free_obj */
    method FreeObj(target: nat, slab: nat) returns (ok: bool)
      requires slab < headers.Length && RowsOk(headers[slab].rows) && headers[slab].objSize > 0
      requires headers[slab].capacity < 64 * ROWS && slab * PAGE_SIZE <= target
      modifies headers
      ensures var h := old(headers[slab]); var offset := target - slab * PAGE_SIZE;
              if offset < ELEMENT_OFFSET || SlotAt(offset, h.objSize) > h.capacity
              then !ok && headers[..] == old(headers[..])
              else ok && headers[..] == old(headers[..])[slab := FreeSlot(h, SlotAt(offset, h.objSize))]
    {
      var objSize := headers[slab].objSize;
      var offset := target - slab * PAGE_SIZE;
      if offset < ELEMENT_OFFSET {
        return false;
      }
      var idx := (offset - ELEMENT_OFFSET) / objSize;
      if idx > headers[slab].capacity {
        return false;
      }
      headers[slab] := headers[slab].(rows := WriteSlot(headers[slab].rows, idx, false));
      headers[slab] := headers[slab].(avail := headers[slab].avail + 1);
      return true;
    }

    /** Taking a slab off its pool's list. */
    method Unlink(k: nat, slab: nat)
      requires Wired() && k < POOLS && slab in lists[k]
      modifies this`lists, pool, nodes.prev, nodes.next
      ensures Wired() && lists == old(lists)[k := Without(old(lists[k]), slab)]
      ensures Slabs() == old(Slabs()) - {slab}
    {
      hide Linked, Without, On;
      HeadAfter(nodes.View(), lists, k, slab);
      TakeOut(nodes.View(), lists, k, slab);
      LinkedDisjoint(nodes.View(), lists);
      TakeOff(lists, k, slab);
      assert pool[k] == At(lists[k], 0);
      if pool[k] == slab {
        pool[k] := nodes.next[slab];
      }
      var _ := nodes.Remove(slab);
      lists := lists[k := Without(lists[k], slab)];
    }

    static ghost function Position(x: nat, xs: seq<nat>): (i: nat)
      requires x in xs
      ensures i < |xs| && xs[i] == x
    {
      var i :| 0 <= i < |xs| && xs[i] == x;
      i
    }

    /** An empty slab goes back to the page allocator, unless it is its pool's only one. */
    method ReclaimEmpty(k: nat, slab: nat)
      requires Wired() && pages.Valid() && k < POOLS && slab in lists[k]
      modifies this`lists, pool, nodes.prev, nodes.next
      modifies pages`lists, pages.status, pages.freeList, pages.nodes.prev, pages.nodes.next
      ensures Wired() && pages.Valid() && slab < headers.Length && old(State()).pages.Sized()
      ensures State() ==
                if headers[slab].avail == headers[slab].capacity && old(|lists[k]|) > 1
                then Dyna(B.FreeAt(old(pages.State()), slab), old(lists)[k := Without(old(lists[k]), slab)],
                      old(Slabs()) - {slab})
                else old(State())
    {
      hide Linked, BuddyTheory.Valid, On, Without, B.FreeAt;
      ghost var i := Position(slab, lists[k]);
      WiredAt(k, i);
      WiredAt(k, 0);
      PagesSized(pages);
      if headers[slab].avail == headers[slab].capacity && !(nodes.prev[slab] == NULL && nodes.next[slab] == NULL) {
        Unlink(k, slab);
        pages.PageFree(slab * PAGE_SIZE);
      }
    }

    static lemma PagesSized(p: Allocator)
      requires p.Valid()
      ensures p.State().Sized()
    {
      assert Inv(p.State(), Ord(p.State()));
    }

    /** dyna_free */
    method DynaFree(target: nat)
      requires Valid() && target != pages.MemSize() && MayFree(State(), target)
      modifies this`lists, pool, headers, nodes.prev, nodes.next
      modifies pages`lists, pages.status, pages.freeList, pages.nodes.prev, pages.nodes.next
      ensures Valid()
      ensures State() == FreeAddress(old(State()), target)
    {
      hide SlabInv, Linked, BuddyTheory.Valid, FreePage, TakenBlocks, SlabOps.DynaFree, R.IsAllocated, SlotAt,
           IsLive, FreeAddress, WriteSlot, RowsOk;
      ghost var d := State();
      var taken := pages.IsAllocated(target);
      if !taken {
        RefusedIs(d, target);
        return;
      }
      var slab := ToBlockIdx(target, pages.MemSize());
      FreeReady(d, target);
      assert headers[slab] == d.hdr[slab];
      var ok := FreeObj(target, slab);
      if !ok {
        assert State() == d;
        RefusedIs(d, target);
        return;
      }
      var k := PoolIdx(headers[slab].objSize);
      FreeAddressIs(d, target);
      assert Slabs() == d.hdr[slab := headers[slab]];
      assert d.hdr[slab := headers[slab]] - {slab} == d.hdr - {slab};
      ReclaimEmpty(k, slab);
      assert State() == FreeAddress(d, target);
    }
  }
}
