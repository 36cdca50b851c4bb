/** Threads, their program regions and their workloads over both allocators: each has a structure
    from dyna_alloc, and stacks and program memory from page_alloc, while others use the same
    allocators (lib/thread/thread.c, lib/allocator/re_region.c, lib/exception/exception_c.c). */
module Kernel {
  import opened Machine
  import opened LinkedNodes
  import opened BuddyState
  import opened BuddyTheory
  import opened SlabState
  import opened SlabOps
  import B = BuddyOps
  import P = PageAllocator
  import S = SlabRuns
  import T = Threads

  const THREAD_SIZE: nat := 264
  const EXCEPT_WORKLOAD_SIZE: nat := 16
  const RC_REGION_SIZE: nat := 12

  /** The structures that the thread system takes from dyna_alloc. */
  datatype Name = ThreadOf(id: nat) | WorkloadOf(id: nat) | RegionOf(r: nat)

  function SizeOf(n: Name): nat {
    match n
    case ThreadOf(_) => THREAD_SIZE
    case WorkloadOf(_) => EXCEPT_WORKLOAD_SIZE
    case RegionOf(_) => RC_REGION_SIZE
  }

  /** An object, by its slab and its slot. */
  datatype Object = Object(slab: nat, slot: nat)

  /** The thread system, the allocators, and where each structure is. */
  datatype State = State(sys: T.Sys, dyna: Dyna, place: map<Name, Object>)

  ghost function Own(k: State): map<T.Slot, Block> {
    T.Owned(k.sys.threads, k.sys.regions)
  }

  /** Every structure is a live object of its own, in the class of its size. */
  ghost predicate ObjectsOk(d: Dyna, place: map<Name, Object>) {
    && (forall n :: n in place ==>
          IsLive(d, place[n].slab, place[n].slot) && d.hdr[place[n].slab].objSize == ObjSize(PoolIdx(SizeOf(n))))
    && (forall n, m :: n in place && m in place && n != m ==> place[n] != place[m])
  }

  /** The slab invariant, the threads' ownership of their blocks, none of which is a slab, and the
      structures. */
  ghost predicate Core(k: State) {
    && SlabInv(k.dyna) && k.sys.pages == k.dyna.pages && T.OwnsOk(k.sys.pages, Own(k))
    && (forall x :: x in Own(k) ==> Own(k)[x].head !in k.dyna.hdr)
    && ObjectsOk(k.dyna, k.place)
  }

  ghost predicate NamesOk(k: State) {
    forall n :: n in k.place <==>
      match n
      case ThreadOf(id) => id in k.sys.threads
      case WorkloadOf(id) => id in k.sys.threads
      case RegionOf(r) => r in k.sys.regions
  }

  /** The invariant of the whole. */
  ghost predicate Inv(k: State) {
    Core(k) && T.Inv(k.sys) && NamesOk(k)
  }

  // ----- what others hold -----

  ghost predicate OtherObject(k: State, o: Object) {
    IsLive(k.dyna, o.slab, o.slot) && o !in k.place.Values
  }

  ghost function OtherBlocks(k: State): set<Block>
    requires Valid(k.dyna.pages)
  {
    set b | b in S.Handed(k.dyna) && b !in Own(k).Values
  }

  /** Others hold what they held, and small classes are still content with one slab. */
  ghost predicate SameOthers(k: State, e: State)
    requires Valid(k.dyna.pages) && Valid(e.dyna.pages)
  {
    && OtherBlocks(e) == OtherBlocks(k) && (forall o :: OtherObject(e, o) <==> OtherObject(k, o))
    && (S.OneSlab(k.dyna) ==> S.OneSlab(e.dyna))
  }

  // ----- structures come and go -----

  /** Objects keep their class when slabs come and go. */
  lemma SizesStay(d: Dyna, e: Dyna)
    requires SlabInv(d) && SlabInv(e)
    requires forall i: nat, q: nat :: i < POOLS && q in e.pools[i] && q in d.hdr ==> q in d.pools[i]
    ensures forall q :: q in d.hdr && q in e.hdr ==> d.hdr[q].objSize == e.hdr[q].objSize
  {
    hide Valid, TakenBlocks, On;
    forall q | q in d.hdr && q in e.hdr
      ensures d.hdr[q].objSize == e.hdr[q].objSize
    {
      var i := S.ClassOf(e, q);
      assert SlabOk(d, i, q) && SlabOk(e, i, q);
    }
  }

  lemma AllocPools(d: Dyna, size: nat)
    requires SlabInv(d) && CanServe(d, size)
    ensures var e := DynaAlloc(d, size).0;
            |e.pools| == POOLS && forall i: nat, q: nat ::
              i < POOLS && q in e.pools[i] && q in d.hdr ==> q in d.pools[i]
  {
    hide Valid, TakenBlocks, B.AllocOrder, AllocSlot, On;
    var k := PoolIdx(size);
    if k < POOLS {
      PoolHeaders(d, k);
      if NeedsSlab(d, k) { NewSlabPage(d); }
      assert |d.pools| == POOLS;
    }
  }

  lemma FreePools(d: Dyna, k: nat, p: nat, j: nat)
    requires SlabInv(d) && k < POOLS && p in d.pools[k] && IsLive(d, p, j)
    ensures var e := DynaFree(d, k, p, j);
            |e.pools| == POOLS && forall i: nat, q: nat :: i < POOLS && q in e.pools[i] ==> q in d.pools[i]
  {
    hide Valid, TakenBlocks, B.FreeAt, FreeSlot, Without;
    WithoutMembers(d.pools[k], p);
  }

  /** dyna_alloc for a structure.  Where the page for a slab cannot be had, the code writes through
      a null pointer. */
  ghost function Place(k: State, n: Name): State
    requires Core(k) && CanServe(k.dyna, SizeOf(n))
  {
    var (d, got) := DynaAlloc(k.dyna, SizeOf(n));
    State(k.sys.(pages := d.pages), d,
          if got.Some? then k.place[n := Object(got.value.0, got.value.1)] else k.place)
  }

  /** dyna_free of a structure. */
  ghost function Remove(k: State, n: Name): State
    requires Core(k) && n in k.place
  {
    var o := k.place[n];
    var d := DynaFree(k.dyna, S.ClassIn(k.dyna, o.slab), o.slab, o.slot);
    State(k.sys.(pages := d.pages), d, k.place - {n})
  }

  /** The thread system's own page_alloc and page_free calls. */
  ghost function With(k: State, s: T.Sys): State {
    k.(sys := s, dyna := k.dyna.(pages := s.pages))
  }

  /** dyna calls leave the threads' blocks alone. */
  lemma BlocksStay(k: State, e: State)
    requires Core(k) && SlabInv(e.dyna) && S.Handed(e.dyna) == S.Handed(k.dyna)
    requires e.sys == k.sys.(pages := e.dyna.pages)
    ensures T.OwnsOk(e.sys.pages, Own(e)) && OtherBlocks(e) == OtherBlocks(k)
    ensures forall x :: x in Own(e) ==> Own(e)[x].head !in e.dyna.hdr
  {
    hide TakenBlocks, Valid, T.Owned;
    forall x | x in Own(e)
      ensures Own(e)[x] in TakenBlocks(e.sys.pages) && Own(e)[x].head !in e.dyna.hdr
    {
      assert Own(k)[x] in S.Handed(k.dyna);
    }
  }

  /** A structure's dyna_alloc returns NULL exactly for a stuck class; else the structure is an
      object that was nobody's.  Others notice nothing. */
  lemma PlaceKeeps(k: State, n: Name)
    requires Core(k) && CanServe(k.dyna, SizeOf(n)) && n !in k.place
    ensures var e := Place(k, n);
            && Core(e) && SameOthers(k, e) && |e.sys.pages.status| == |k.sys.pages.status|
            && e.sys == k.sys.(pages := e.sys.pages)
            && (n in e.place <==> !Stuck(k.dyna, PoolIdx(SizeOf(n))))
            && e.place.Keys == (if n in e.place then k.place.Keys + {n} else k.place.Keys)
            && (n in e.place ==> !IsLive(k.dyna, e.place[n].slab, e.place[n].slot))
  {
    hide T.OwnsOk, TakenBlocks, Valid, T.Owned, IsLive, S.Handed, SlabInv, DynaAlloc;
    DynaAllocTheorem(k.dyna, SizeOf(n));
    S.AllocKeepsHanded(k.dyna, SizeOf(n));
    AllocPools(k.dyna, SizeOf(n));
    var e := Place(k, n);
    SizesStay(k.dyna, e.dyna);
    BlocksStay(k, e);
    PlacedObjects(k, e, n);
    if S.OneSlab(k.dyna) { S.AllocOneSlab(k.dyna, SizeOf(n)); }
  }

  lemma PlacedObjects(k: State, e: State, n: Name)
    requires ObjectsOk(k.dyna, k.place) && n !in k.place
    requires forall q :: q in k.dyna.hdr ==> q in e.dyna.hdr && k.dyna.hdr[q].objSize == e.dyna.hdr[q].objSize
    requires if n !in e.place then e.place == k.place else e.place == k.place[n := e.place[n]]
    requires forall q: nat, i: nat ::
               IsLive(e.dyna, q, i) <==> IsLive(k.dyna, q, i) || (n in e.place && e.place[n] == Object(q, i))
    requires n in e.place ==> !IsLive(k.dyna, e.place[n].slab, e.place[n].slot)
    requires n in e.place ==>
               var p := e.place[n].slab; p in e.dyna.hdr && e.dyna.hdr[p].objSize == ObjSize(PoolIdx(SizeOf(n)))
    ensures ObjectsOk(e.dyna, e.place) && forall o :: OtherObject(e, o) <==> OtherObject(k, o)
  {
    hide LiveSlot, RowsOk, ObjSize, PoolIdx;
    forall m | m in e.place
      ensures IsLive(e.dyna, e.place[m].slab, e.place[m].slot)
      ensures e.dyna.hdr[e.place[m].slab].objSize == ObjSize(PoolIdx(SizeOf(m)))
    {
      if m in k.place { assert IsLive(k.dyna, k.place[m].slab, k.place[m].slot); }
    }
    forall o
      ensures o in e.place.Values <==> o in k.place.Values || (n in e.place && o == e.place[n])
    {
      if o in k.place.Values {
        var m :| m in k.place && k.place[m] == o;
        assert e.place[m] == o;
      }
    }
  }

  /** A structure's dyna_free ends that one object's life.  Others notice nothing. */
  lemma RemoveKeeps(k: State, n: Name)
    requires Core(k) && n in k.place
    ensures var e := Remove(k, n);
            && Core(e) && SameOthers(k, e) && |e.sys.pages.status| == |k.sys.pages.status|
            && e.sys == k.sys.(pages := e.sys.pages) && e.place == k.place - {n}
            && !IsLive(e.dyna, k.place[n].slab, k.place[n].slot)
  {
    hide T.OwnsOk, TakenBlocks, Valid, T.Owned, S.Handed, SlabInv, DynaFree, LiveSlot;
    var o := k.place[n];
    var c := S.ClassIn(k.dyna, o.slab);
    DynaFreeTheorem(k.dyna, c, o.slab, o.slot);
    S.FreeKeepsHanded(k.dyna, c, o.slab, o.slot);
    FreePools(k.dyna, c, o.slab, o.slot);
    var e := Remove(k, n);
    SizesStay(k.dyna, e.dyna);
    BlocksStay(k, e);
    RemovedObjects(k, e, n);
    if S.OneSlab(k.dyna) { S.FreeOneSlab(k.dyna, c, o.slab, o.slot); }
  }

  lemma RemovedObjects(k: State, e: State, n: Name)
    requires ObjectsOk(k.dyna, k.place) && n in k.place && e.place == k.place - {n}
    requires forall q :: q in k.dyna.hdr && q in e.dyna.hdr ==> k.dyna.hdr[q].objSize == e.dyna.hdr[q].objSize
    requires e.dyna.hdr.Keys <= k.dyna.hdr.Keys
    requires forall q: nat, i: nat :: IsLive(e.dyna, q, i) <==> IsLive(k.dyna, q, i) && k.place[n] != Object(q, i)
    ensures ObjectsOk(e.dyna, e.place) && forall o :: OtherObject(e, o) <==> OtherObject(k, o)
  {
    hide LiveSlot, RowsOk, ObjSize, PoolIdx;
    forall m | m in e.place
      ensures IsLive(e.dyna, e.place[m].slab, e.place[m].slot)
      ensures e.dyna.hdr[e.place[m].slab].objSize == ObjSize(PoolIdx(SizeOf(m)))
    {
      assert k.place[m] != k.place[n];
    }
    forall o
      ensures o in k.place.Values <==> o in e.place.Values || o == k.place[n]
    {
      if o in k.place.Values && o != k.place[n] {
        var m :| m in k.place && k.place[m] == o;
        assert e.place[m] == o;
      }
    }
  }

  /** What the thread system does to its own blocks changes no object and no block of others. */
  lemma WithKeeps(k: State, s: T.Sys)
    requires Core(k) && T.OwnsOk(s.pages, T.Owned(s.threads, s.regions)) && |s.pages.status| == |k.sys.pages.status|
    requires T.Foreign(s.pages, T.Owned(s.threads, s.regions)) == T.Foreign(k.sys.pages, Own(k))
    ensures Core(With(k, s)) && SameOthers(k, With(k, s))
  {
    hide TakenBlocks, Valid, T.Owned, IsLive;
    var e := With(k, s);
    forall b | b in TakenBlocks(k.dyna.pages) && (b.kind == RESERVED || b.head in k.dyna.hdr)
      ensures b in TakenBlocks(s.pages)
    {
      if b.head in k.dyna.hdr { SlabIsForeign(k, b.head); }
      assert b in T.Foreign(k.sys.pages, Own(k));
    }
    S.PagesChanged(k.dyna, s.pages);
    forall x | x in Own(e)
      ensures Own(e)[x].head !in e.dyna.hdr
    {
      var b := Own(e)[x];
      if b.head in k.dyna.hdr {
        SlabIsForeign(k, b.head);
        SameHead(s.pages, b, SlabBlock(b.head));
      }
    }
    forall b: Block
      ensures b in OtherBlocks(e) <==> b in OtherBlocks(k)
    {
      assert b in OtherBlocks(e) <==> b in T.Foreign(s.pages, Own(e)) && b.head !in k.dyna.hdr;
      assert b in OtherBlocks(k) <==> b in T.Foreign(k.sys.pages, Own(k)) && b.head !in k.dyna.hdr;
    }
  }

  lemma SameHead(p: Pages, b: Block, c: Block)
    requires Valid(p) && b in TakenBlocks(p) && c in TakenBlocks(p) && b.head == c.head
    ensures b == c
  {
  }

  lemma SlabIsForeign(k: State, p: nat)
    requires Core(k) && p in k.dyna.hdr
    ensures SlabBlock(p) in T.Foreign(k.sys.pages, Own(k))
    ensures forall b :: b in TakenBlocks(k.dyna.pages) && b.head == p ==> b == SlabBlock(p)
  {
    hide Valid, T.Owned;
    var i := S.ClassOf(k.dyna, p);
  }

  // ----- threads start -----

  ghost predicate StructuresOk(k: State, e: State)
    requires Core(k)
  {
    var id := k.sys.nextId;
    && Core(e) && SameOthers(k, e) && |e.sys.pages.status| == |k.sys.pages.status|
    && e.sys == k.sys.(pages := e.sys.pages) && T.StacksAvailable(e.sys.pages)
    && e.place.Keys == k.place.Keys + {ThreadOf(id), WorkloadOf(id)}
  }

  /** A structure that the code needs: None stands for a call after which it writes through a null
      pointer. */
  ghost function Obtain(k: State, n: Name): (r: Option<State>)
    requires Core(k) && n !in k.place
    ensures r.Some? ==> Core(r.value) && r.value.place.Keys == k.place.Keys + {n}
  {
    if !CanServe(k.dyna, SizeOf(n)) then None
    else
      PlaceKeeps(k, n);
      if n in Place(k, n).place then Some(Place(k, n)) else None
  }

  /** The two structures of a new thread, with pages left for its stacks. */
  ghost function Structures(k: State): (r: Option<State>)
    requires Core(k) && ThreadOf(k.sys.nextId) !in k.place && WorkloadOf(k.sys.nextId) !in k.place
    ensures r.Some? ==> T.StacksAvailable(r.value.sys.pages)
  {
    match Obtain(k, ThreadOf(k.sys.nextId))
    case None => None
    case Some(k1) =>
      match Obtain(k1, WorkloadOf(k.sys.nextId))
      case None => None
      case Some(k2) => if T.StacksAvailable(k2.sys.pages) then Some(k2) else None
  }

  lemma StructuresKeeps(k: State)
    requires Core(k) && ThreadOf(k.sys.nextId) !in k.place && WorkloadOf(k.sys.nextId) !in k.place
    ensures Structures(k).Some? ==> StructuresOk(k, Structures(k).value)
  {
    hide Core, T.StacksAvailable, SameOthers, Stuck, T.Owned, Place, SlabInv, CanServe;
    var id := k.sys.nextId;
    if Structures(k).Some? {
      CoreValid(k);
      PlaceKeeps(k, ThreadOf(id));
      var k1 := Place(k, ThreadOf(id));
      CoreValid(k1);
      PlaceKeeps(k1, WorkloadOf(id));
      var k2 := Place(k1, WorkloadOf(id));
      CoreValid(k2);
      SameAgain(k, k1, k2);
    }
  }

  lemma CoreValid(k: State)
    requires Core(k)
    ensures SlabInv(k.dyna) && Valid(k.dyna.pages) && k.sys.pages == k.dyna.pages
  {
  }

  lemma SameAgain(k: State, m: State, e: State)
    requires Valid(k.dyna.pages) && Valid(m.dyna.pages) && Valid(e.dyna.pages)
    requires SameOthers(k, m) && SameOthers(m, e)
    ensures SameOthers(k, e)
  {
    hide Valid, OtherObject, OtherBlocks;
  }

  /** What the thread system's own bookkeeping needs, apart from counts. */
  ghost predicate Filed(s: T.Sys) {
    T.PlacesOk(s.threads, s.run, s.dead, s.curr, s.nextId) && T.StacksOk(s.threads)
  }

  lemma MakeThreadKeeps(k: State, prog: nat)
    requires Core(k) && Filed(k.sys) && T.StacksAvailable(k.sys.pages)
    ensures var e := With(k, T.MakeThread(k.sys, prog));
            Core(e) && SameOthers(k, e) && Filed(e.sys) && |e.sys.pages.status| == |k.sys.pages.status|
  {
    hide T.OwnsOk, T.Foreign, T.Owned, SlabInv, ObjectsOk, T.PlacesOk, T.Take, T.CanTake, Valid,
         OtherObject, OtherBlocks;
    T.MakeThreadKeeps(k.sys, prog);
    WithKeeps(k, T.MakeThread(k.sys, prog));
  }

  lemma NewRegionKeeps(k: State, order: nat)
    requires Core(k) && T.CanTake(k.sys.pages, order) && k.sys.nextRegion !in k.sys.regions
    ensures var e := With(k, T.NewRegion(k.sys, order));
            Core(e) && SameOthers(k, e) && |e.sys.pages.status| == |k.sys.pages.status|
  {
    hide T.OwnsOk, T.Foreign, T.Owned, SlabInv, ObjectsOk, T.Take, T.CanTake, Valid, OtherObject, OtherBlocks;
    T.NewRegionOwns(k.sys, order);
    WithKeeps(k, T.NewRegion(k.sys, order));
  }

  lemma NewNames(k: State)
    requires Inv(k)
    ensures k.sys.nextRegion !in k.sys.regions && k.sys.nextId !in k.sys.threads
    ensures RegionOf(k.sys.nextRegion) !in k.place
    ensures ThreadOf(k.sys.nextId) !in k.place && WorkloadOf(k.sys.nextId) !in k.place
  {
    hide T.OwnsOk, T.Owned, SlabInv, ObjectsOk;
    T.RegionFresh(k.sys);
  }

  /** rc_alloc takes the structure and then the pages, and gives the structure back when there are
      none.  It returns NULL when no region is added. */
  ghost function RcAlloc(k: State, order: nat): State
    requires Core(k) && RegionOf(k.sys.nextRegion) !in k.place && CanServe(k.dyna, RC_REGION_SIZE)
  {
    var n := RegionOf(k.sys.nextRegion);
    PlaceKeeps(k, n);
    var k1 := Place(k, n);
    if n !in k1.place then k1
    else if !T.CanTake(k1.sys.pages, order) then Remove(k1, n)
    else With(k1, T.NewRegion(k1.sys, order))
  }

  /** rc_alloc returns NULL exactly when the class of its structure is stuck, or the pages cannot be
      had once the structure is; then nothing but slabs may have changed. */
  lemma RcAllocKeeps(k: State, order: nat)
    requires Core(k) && RegionOf(k.sys.nextRegion) !in k.place && CanServe(k.dyna, RC_REGION_SIZE)
    requires k.sys.nextRegion !in k.sys.regions
    ensures var r := k.sys.nextRegion; var e := RcAlloc(k, order); var m := T.Region(1, TakenAt(k, order), order);
            && Core(e) && SameOthers(k, e) && |e.sys.pages.status| == |k.sys.pages.status|
            && (r in e.sys.regions <==> !Stuck(k.dyna, 0) && T.CanTake(Place(k, RegionOf(r)).sys.pages, order))
            && (r !in e.sys.regions ==> e.sys == k.sys.(pages := e.sys.pages) && e.place == k.place)
            && (r in e.sys.regions ==>
                  && e.sys == k.sys.(pages := e.sys.pages, nextRegion := r + 1, regions := k.sys.regions[r := m])
                  && e.place.Keys == k.place.Keys + {RegionOf(r)})
  {
    hide Core, SameOthers, T.Owned, CanServe, T.CanTake, T.Take, Stuck, DynaFree, DynaAlloc, SlabInv;
    CoreValid(k);
    var n := RegionOf(k.sys.nextRegion);
    PlaceKeeps(k, n);
    var k1 := Place(k, n);
    CoreValid(k1);
    var e := RcAlloc(k, order);
    if n in k1.place && !T.CanTake(k1.sys.pages, order) {
      RemoveKeeps(k1, n);
      CoreValid(e);
      SameAgain(k, k1, e);
    } else if n in k1.place {
      NewRegionKeeps(k1, order);
      CoreValid(e);
      SameAgain(k, k1, e);
    }
  }

  /** The page that a region of this order gets after its structure. */
  ghost function TakenAt(k: State, order: nat): nat
    requires Core(k) && RegionOf(k.sys.nextRegion) !in k.place && CanServe(k.dyna, RC_REGION_SIZE)
  {
    var p := Place(k, RegionOf(k.sys.nextRegion)).sys.pages;
    if T.CanTake(p, order) then T.Take(p, order).1 else 0
  }

  /** run_prog, up to schedule: rc_alloc and thread_init. */
  ghost function Spawn(k: State, order: nat): Option<State>
    requires Inv(k)
  {
    NewNames(k);
    if !CanServe(k.dyna, RC_REGION_SIZE) then None
    else
      RcAllocKeeps(k, order);
      var k1 := RcAlloc(k, order);
      if k.sys.nextRegion !in k1.sys.regions then Some(k1)
      else
        match Structures(k1)
        case None => None
        case Some(k2) => Some(With(k2, T.MakeThread(k2.sys, k.sys.nextRegion)))
  }

  /** The invariant in its parts. */
  lemma Whole(k: State)
    ensures Inv(k) <==>
              Core(k) && Filed(k.sys) && T.CountsOk(k.sys.threads, k.sys.regions, k.sys.nextRegion) && NamesOk(k)
  {
    hide T.OwnsOk, T.Owned, SlabInv, ObjectsOk, T.PlacesOk, T.StacksOk, T.CountsOk, NamesOk;
  }

  /** Only pages and slabs changed. */
  lemma Repaged(k: State, e: State)
    requires Inv(k) && Core(e) && e.sys == k.sys.(pages := e.sys.pages) && e.place.Keys == k.place.Keys
    ensures Inv(e)
  {
    hide T.OwnsOk, T.Owned, SlabInv, ObjectsOk, T.PlacesOk, T.StacksOk, T.CountsOk;
    Whole(k);
    Whole(e);
  }

  /** A new region and its thread, when both have all they need. */
  lemma Spawned(k: State, k3: State, m: nat, order: nat)
    requires Inv(k) && Core(k3) && T.StacksAvailable(k3.sys.pages)
    requires k3.sys == k.sys.(pages := k3.sys.pages, nextRegion := k.sys.nextRegion + 1,
                              regions := k.sys.regions[k.sys.nextRegion := T.Region(1, m, order)])
    requires k3.place.Keys == k.place.Keys +
               {RegionOf(k.sys.nextRegion), ThreadOf(k.sys.nextId), WorkloadOf(k.sys.nextId)}
    ensures var e := With(k3, T.MakeThread(k3.sys, k.sys.nextRegion));
            Inv(e) && SameOthers(k3, e) && |e.sys.pages.status| == |k3.sys.pages.status|
  {
    hide Core, T.StacksAvailable, SameOthers, T.Owned, SlabInv, T.Take, T.PlacesOk, T.StacksOk, T.CountsOk;
    Whole(k);
    NewNames(k);
    MakeThreadKeeps(k3, k.sys.nextRegion);
    var e := With(k3, T.MakeThread(k3.sys, k.sys.nextRegion));
    T.SpawnCounts(k.sys.threads, k.sys.regions, k.sys.nextRegion, k.sys.nextId, e.sys.threads[k.sys.nextId], m, order);
    Whole(e);
  }

  /** A program runs in a new thread on a region of its own, or rc_alloc returned NULL. */
  lemma SpawnKeeps(k: State, order: nat)
    requires Inv(k) && Spawn(k, order).Some?
    ensures var e := Spawn(k, order).value; var id, r := k.sys.nextId, k.sys.nextRegion;
            && Inv(e) && Core(k) && SameOthers(k, e) && |e.sys.pages.status| == |k.sys.pages.status|
            && (r !in e.sys.regions ==> e.sys == k.sys.(pages := e.sys.pages) && e.place == k.place)
            && (r in e.sys.regions ==> e.sys.threads.Keys == k.sys.threads.Keys + {id} && e.sys.threads[id].prog == r)
  {
    hide Inv, Core, T.StacksAvailable, SameOthers, T.Owned, CanServe, T.CanTake, T.Take, Structures, Stuck, DynaFree,
         DynaAlloc, SlabInv, RcAlloc;
    NewNames(k);
    Whole(k);
    CoreValid(k);
    var r := k.sys.nextRegion;
    RcAllocKeeps(k, order);
    var k1 := RcAlloc(k, order);
    CoreValid(k1);
    if r !in k1.sys.regions {
      Repaged(k, k1);
    } else {
      StructuresKeeps(k1);
      var k2 := Structures(k1).value;
      CoreValid(k2);
      Spawned(k, k2, TakenAt(k, order), order);
      Whole(Spawn(k, order).value);
      CoreValid(Spawn(k, order).value);
      SameAgain(k, k1, k2);
      SameAgain(k, k2, Spawn(k, order).value);
    }
  }

  /** fork_s may be called by a user thread with its stack pointers in its stacks. */
  ghost predicate MayFork(k: State, usp: nat, ksp: nat) {
    && k.sys.curr > 1 && k.sys.curr in k.sys.threads
    && T.Inside(usp, k.sys.threads[k.sys.curr].ustack, T.USER_STACK_SIZE)
    && T.Inside(ksp, k.sys.threads[k.sys.curr].kstack, T.KERNEL_STACK_SIZE)
  }

  ghost function Fork(k: State, usp: nat, ksp: nat): Option<State>
    requires Inv(k) && MayFork(k, usp, ksp)
  {
    NewNames(k);
    StructuresKeeps(k);
    match Structures(k)
    case None => None
    case Some(k1) => Some(With(k1, T.Fork(k1.sys, usp, ksp)))
  }

  lemma ForkKeeps(k: State, usp: nat, ksp: nat)
    requires Inv(k) && MayFork(k, usp, ksp) && Fork(k, usp, ksp).Some?
    ensures var e := Fork(k, usp, ksp).value;
            Inv(e) && Core(k) && SameOthers(k, e) && |e.sys.pages.status| == |k.sys.pages.status|
  {
    hide Core, T.StacksAvailable, SameOthers, T.Owned, T.OwnsOk, T.CanTake, T.Take, Structures, SlabInv, T.PlacesOk,
         T.CountsOk, T.StacksOk, T.Foreign;
    NewNames(k);
    Whole(k);
    CoreValid(k);
    StructuresKeeps(k);
    var k1 := Structures(k).value;
    Whole(k1);
    CoreValid(k1);
    CoreOwns(k1);
    T.RegionReady(k1.sys, k.sys.curr);
    T.ForkKeeps(k1.sys, usp, ksp);
    T.MakeThreadKeeps(k1.sys, k.sys.threads[k.sys.curr].prog);
    WithKeeps(k1, T.Fork(k1.sys, usp, ksp));
    var e := Fork(k, usp, ksp).value;
    Whole(e);
    CoreValid(e);
    SameAgain(k, k1, e);
  }

  lemma CoreOwns(k: State)
    requires Core(k)
    ensures T.OwnsOk(k.sys.pages, T.Owned(k.sys.threads, k.sys.regions))
  {
  }

  // ----- threads end -----

  /** rc_free: the region's pages and its structure go back with its last thread. */
  ghost function RcFree(k: State, r: nat): State
    requires Core(k) && r in k.sys.regions && k.sys.regions[r].count > 0 && RegionOf(r) in k.place
  {
    T.UnrefOwns(k.sys, r);
    WithKeeps(k, T.Unref(k.sys, r));
    var k1 := With(k, T.Unref(k.sys, r));
    if r in k1.sys.regions then k1 else Remove(k1, RegionOf(r))
  }

  lemma RcFreeKeeps(k: State, r: nat)
    requires Core(k) && r in k.sys.regions && k.sys.regions[r].count > 0 && RegionOf(r) in k.place
    ensures k.sys.pages.Sized() && k.sys.regions[r].mem < |k.sys.pages.status|
    ensures var e := RcFree(k, r);
            && Core(e) && SameOthers(k, e) && |e.sys.pages.status| == |k.sys.pages.status|
            && e.sys == T.Unref(k.sys, r).(pages := e.sys.pages)
            && e.place.Keys == if k.sys.regions[r].count == 1 then k.place.Keys - {RegionOf(r)} else k.place.Keys
  {
    hide Core, SameOthers, T.Owned, T.OwnsOk, T.Foreign, SlabInv, Remove, B.FreeAt;
    CoreValid(k);
    CoreOwns(k);
    T.UnrefOwns(k.sys, r);
    var k1 := With(k, T.Unref(k.sys, r));
    WithKeeps(k, T.Unref(k.sys, r));
    CoreValid(k1);
    if r !in k1.sys.regions {
      RemoveKeeps(k1, RegionOf(r));
      CoreValid(Remove(k1, RegionOf(r)));
      SameAgain(k, k1, Remove(k1, RegionOf(r)));
    }
  }

  /** page_free of both stacks, dyna_free of the workload and of the thread itself. */
  ghost function FreeThread(k: State, id: nat): State
    requires Core(k) && T.StacksOk(k.sys.threads) && id in k.sys.threads && k.sys.dead != []
    requires ThreadOf(id) in k.place && WorkloadOf(id) in k.place
  {
    T.FreeStacksOwns(k.sys, id);
    WithKeeps(k, T.FreeStacks(k.sys, id));
    var k1 := With(k, T.FreeStacks(k.sys, id));
    RemoveKeeps(k1, WorkloadOf(id));
    Remove(Remove(k1, WorkloadOf(id)), ThreadOf(id))
  }

  lemma FreeThreadKeeps(k: State, id: nat)
    requires Core(k) && T.StacksOk(k.sys.threads) && id in k.sys.threads && k.sys.dead != []
    requires ThreadOf(id) in k.place && WorkloadOf(id) in k.place
    ensures var e := FreeThread(k, id);
            && Core(e) && SameOthers(k, e) && |e.sys.pages.status| == |k.sys.pages.status|
            && e.sys == k.sys.(pages := e.sys.pages, threads := k.sys.threads - {id}, dead := k.sys.dead[1..])
            && e.place.Keys == k.place.Keys - {WorkloadOf(id), ThreadOf(id)}
  {
    hide Core, SameOthers, T.Owned, T.OwnsOk, T.Foreign, SlabInv, Remove, B.FreeAt, T.StacksOk;
    CoreValid(k);
    CoreOwns(k);
    T.FreeStacksOwns(k.sys, id);
    WithKeeps(k, T.FreeStacks(k.sys, id));
    var k1 := With(k, T.FreeStacks(k.sys, id));
    CoreValid(k1);
    RemoveKeeps(k1, WorkloadOf(id));
    var k2 := Remove(k1, WorkloadOf(id));
    CoreValid(k2);
    RemoveKeeps(k2, ThreadOf(id));
    var k3 := Remove(k2, ThreadOf(id));
    CoreValid(k3);
    SameAgain(k, k1, k2);
    SameAgain(k, k2, k3);
  }

  /** The first dead thread and its region are there, with their structures. */
  lemma DeadReady(k: State)
    requires Inv(k) && k.sys.dead != []
    ensures Core(k) && k.sys.dead[0] in k.sys.threads
    ensures var id := k.sys.dead[0]; var r := k.sys.threads[id].prog;
            && r in k.sys.regions && k.sys.regions[r].count > 0 && RegionOf(r) in k.place
            && var e := RcFree(k, r);
               && Core(e) && T.StacksOk(e.sys.threads) && id in e.sys.threads && e.sys.dead == k.sys.dead
               && ThreadOf(id) in e.place && WorkloadOf(id) in e.place
  {
    hide Core, SameOthers, T.Owned, T.OwnsOk, SlabInv, B.FreeAt, T.StacksOk, T.PlacesOk, T.CountsOk,
         RcFree, T.MaskedPage;
    Whole(k);
    T.ReapReady(k.sys);
    var id := k.sys.dead[0];
    RcFreeKeeps(k, k.sys.threads[id].prog);
  }

  /** One round of kill_zombies. */
  ghost function Reap(k: State): State
    requires Inv(k) && k.sys.dead != []
  {
    DeadReady(k);
    FreeThread(RcFree(k, k.sys.threads[k.sys.dead[0]].prog), k.sys.dead[0])
  }

  /** Reaping gives back a thread's stacks, its structure and its workload, and its region with its
      structure when no other thread names it.  Others notice nothing. */
  lemma ReapKeeps(k: State)
    requires Inv(k) && k.sys.dead != []
    ensures var e := Reap(k); var id := k.sys.dead[0];
            && Inv(e) && Core(k) && SameOthers(k, e) && |e.sys.pages.status| == |k.sys.pages.status|
            && id in k.sys.threads && e.sys.threads == k.sys.threads - {id}
            && var r := k.sys.threads[id].prog;
               r in e.sys.regions <==> exists x :: x in k.sys.threads && x != id && k.sys.threads[x].prog == r
  {
    hide Core, SameOthers, T.Owned, T.OwnsOk, T.Foreign, SlabInv, B.FreeAt, T.StacksOk, T.PlacesOk, T.CountsOk, RcFree,
         FreeThread, T.MaskedPage;
    Whole(k);
    CoreValid(k);
    DeadReady(k);
    T.ReapReady(k.sys);
    T.ReapOneKeeps(k.sys);
    var id := k.sys.dead[0];
    var r := k.sys.threads[id].prog;
    RcFreeKeeps(k, r);
    var k1 := RcFree(k, r);
    CoreValid(k1);
    FreeThreadKeeps(k1, id);
    var e := FreeThread(k1, id);
    CoreValid(e);
    SameAgain(k, k1, e);
    var t := T.ReapOne(k.sys);
    assert e.sys == t.(pages := e.sys.pages);
    Whole(e);
  }

  // ----- others -----

  /** Others call both allocators, and free what is theirs. */
  ghost predicate MayCall(k: State, c: S.Call)
    requires Core(k)
  {
    && S.Allowed(k.dyna, c)
    && (c.Free? ==> Object(c.slab, c.slot) !in k.place.Values)
    && (c.FreePages? ==> forall x :: x in Own(k) ==> Own(k)[x].head != c.page)
  }

  ghost function Called(k: State, c: S.Call): State
    requires Core(k) && MayCall(k, c)
  {
    var d := S.Apply(k.dyna, c);
    State(k.sys.(pages := d.pages), d, k.place)
  }

  lemma ObjectsStay(d: Dyna, e: Dyna, place: map<Name, Object>)
    requires ObjectsOk(d, place)
    requires forall q :: q in d.hdr && q in e.hdr ==> d.hdr[q].objSize == e.hdr[q].objSize
    requires forall n :: n in place ==> IsLive(e, place[n].slab, place[n].slot)
    ensures ObjectsOk(e, place)
  {
    hide LiveSlot, RowsOk;
  }

  /** dyna calls by others. */
  lemma DynaCallKeeps(k: State, c: S.Call)
    requires Core(k) && MayCall(k, c) && (c.Alloc? || c.Free?)
    ensures var e := Called(k, c);
            && Core(e) && OtherBlocks(e) == OtherBlocks(k) && |e.sys.pages.status| == |k.sys.pages.status|
            && (c.Alloc? ==> forall o :: OtherObject(k, o) ==> OtherObject(e, o))
            && (c.Free? ==> forall o :: OtherObject(e, o) <==> OtherObject(k, o) && o != Object(c.slab, c.slot))
  {
    hide T.OwnsOk, TakenBlocks, Valid, T.Owned, S.Handed, DynaAlloc, DynaFree, LiveSlot, SlabInv;
    S.CallKeeps(k.dyna, c);
    var e := Called(k, c);
    match c {
      case Alloc(size) =>
        DynaAllocTheorem(k.dyna, size);
        AllocPools(k.dyna, size);
      case Free(p, j) =>
        var i := S.ClassIn(k.dyna, p);
        DynaFreeTheorem(k.dyna, i, p, j);
        FreePools(k.dyna, i, p, j);
    }
    SizesStay(k.dyna, e.dyna);
    BlocksStay(k, e);
    ObjectsStay(k.dyna, e.dyna, k.place);
  }

  /** page_alloc by others takes a block more; page_free by others gives back the block at the page. */
  lemma PageCallBlocks(d: Dyna, c: S.Call)
    requires SlabInv(d) && S.Allowed(d, c) && (c.AllocPages? || c.FreePages?)
    ensures var e := S.Apply(d, c);
            && Valid(e.pages) && |e.pages.status| == |d.pages.status| && e.hdr == d.hdr
            && (c.AllocPages? ==> TakenBlocks(d.pages) <= TakenBlocks(e.pages))
            && (c.FreePages? ==> forall b :: b in TakenBlocks(e.pages) <==>
                  b in TakenBlocks(d.pages) && !(b.head == c.page && b.kind == OCCUPIED))
  {
    hide B.AllocOrder, B.FreeAt, Held, P.OrderFor;
    match c {
      case AllocPages(size) =>
        if size != 0 { B.AllocTheorem(d.pages, P.OrderFor(size)); }
      case FreePages(page) =>
        B.FreeTheorem(d.pages, page);
    }
  }

  /** page calls by others. */
  lemma PageCallKeeps(k: State, c: S.Call)
    requires Core(k) && MayCall(k, c) && (c.AllocPages? || c.FreePages?)
    ensures var e := Called(k, c);
            && Core(e) && (forall o :: OtherObject(e, o) <==> OtherObject(k, o))
            && |e.sys.pages.status| == |k.sys.pages.status|
            && (c.AllocPages? ==> OtherBlocks(k) <= OtherBlocks(e))
            && (c.FreePages? ==> forall b ::
                  b in OtherBlocks(e) <==> b in OtherBlocks(k) && !(b.head == c.page && b.kind == OCCUPIED))
  {
    hide Valid, TakenBlocks, T.Owned, IsLive, S.Apply, SlabInv;
    S.CallKeeps(k.dyna, c);
    PageCallBlocks(k.dyna, c);
  }

  // ----- runs -----

  /** A step of the thread system, as in Threads, or a call by others. */
  datatype Step = Threads(e: T.Step) | Others(c: S.Call)

  /** The steps that spawn or fork are enabled unless the code would write through a null pointer. */
  ghost predicate Enabled(k: State, s: Step)
    requires Inv(k)
  {
    match s
    case Others(c) => MayCall(k, c)
    case Threads(e) =>
      match e
      case Spawning(order) => Spawn(k, order).Some?
      case Forking(usp, ksp) => MayFork(k, usp, ksp) && Fork(k, usp, ksp).Some?
      case _ => T.Allowed(k.sys, e)
  }

  ghost function After(k: State, s: Step): State
    requires Inv(k) && Enabled(k, s)
  {
    match s
    case Others(c) => Called(k, c)
    case Threads(e) =>
      match e
      case Spawning(order) => Spawn(k, order).value
      case Forking(usp, ksp) => Fork(k, usp, ksp).value
      case Reaping => Reap(k)
      case _ => k.(sys := T.Next(k.sys, e))
  }

  /** Steps that only move threads between places, or their stack pointers. */
  lemma MoveKeeps(k: State, e: T.Step)
    requires Inv(k) && T.Allowed(k.sys, e) && (e.Running? || e.Scheduling? || e.Killing?)
    ensures var n := k.(sys := T.Next(k.sys, e)); Inv(n) && Core(k) && SameOthers(k, n)
  {
    hide Core, T.Owned, T.OwnsOk, SlabInv, T.PlacesOk, T.StacksOk, T.CountsOk, SameOthers, T.Foreign;
    Whole(k);
    CoreValid(k);
    T.NextKeeps(k.sys, e);
    var n := T.Next(k.sys, e);
    MoveNames(k.sys, e);
    WithKeeps(k, n);
    assert With(k, n) == k.(sys := n);
    Whole(k.(sys := n));
  }

  lemma MoveNames(s: T.Sys, e: T.Step)
    requires T.Inv(s) && T.Allowed(s, e) && (e.Running? || e.Scheduling? || e.Killing?)
    ensures var n := T.Next(s, e); n.pages == s.pages && n.threads.Keys == s.threads.Keys && n.regions == s.regions
  {
    hide T.Owned, T.OwnsOk, T.StacksOk, T.CountsOk, NoDup, Without;
  }

  lemma StepKeeps(k: State, s: Step)
    requires Inv(k) && Enabled(k, s)
    ensures var e := After(k, s);
            Inv(e) && Core(k) && Core(e)
            && |e.sys.pages.status| == |k.sys.pages.status| && (s.Threads? ==> SameOthers(k, e))
            && (S.OneSlab(k.dyna) ==> S.OneSlab(e.dyna))
  {
    hide Core, T.Owned, T.OwnsOk, SlabInv, T.PlacesOk, T.StacksOk, T.CountsOk, Spawn, Fork, Reap, T.Foreign,
         OtherBlocks, OtherObject, S.OneSlab;
    Whole(k);
    CoreValid(k);
    match s {
      case Others(c) =>
        if c.Alloc? || c.Free? { DynaCallKeeps(k, c); } else { PageCallKeeps(k, c); }
        if S.OneSlab(k.dyna) { S.CallOneSlab(k.dyna, c); }
        Whole(After(k, s));
      case Threads(e) =>
        match e {
          case Spawning(order) => SpawnKeeps(k, order);
          case Forking(usp, ksp) => ForkKeeps(k, usp, ksp);
          case Reaping => ReapKeeps(k);
          case _ => MoveKeeps(k, e);
        }
        Whole(After(k, s));
    }
  }

  ghost predicate Runs(k: State, steps: seq<Step>, e: State)
    requires Inv(k)
    decreases |steps|
  {
    if steps == [] then k == e
    else Enabled(k, steps[0]) && (StepKeeps(k, steps[0]); Runs(After(k, steps[0]), steps[1..], e))
  }

  /** Over every run of threads and of others: the invariants of both allocators and of the thread
      system hold together, each structure is a live object of its own, and no block of a thread is
      a slab; the thread system's own steps change nothing that others hold. */
  lemma {:induction false} RunsKeep(k: State, steps: seq<Step>, e: State)
    requires Inv(k) && Runs(k, steps, e)
    ensures Inv(e) && Core(k) && Core(e)
    ensures (forall i :: 0 <= i < |steps| ==> steps[i].Threads?) ==> SameOthers(k, e)
    ensures S.OneSlab(k.dyna) ==> S.OneSlab(e.dyna)
    decreases |steps|
  {
    hide T.Inv, NamesOk, Core, SameOthers, After, Enabled, SlabInv, S.OneSlab;
    CoreValid(k);
    SameSelf(k);
    if steps != [] {
      StepKeeps(k, steps[0]);
      var m := After(k, steps[0]);
      CoreValid(m);
      RunsKeep(m, steps[1..], e);
      CoreValid(e);
      if SameOthers(k, m) && SameOthers(m, e) { SameAgain(k, m, e); }
    }
  }

  lemma SameSelf(k: State)
    requires Valid(k.dyna.pages)
    ensures SameOthers(k, k)
  {
  }

  /** When all threads are reaped, no structure is left: every live object is somebody else's, and
      every block in use is a slab or somebody else's. */
  lemma AllReaped(k: State)
    requires Inv(k) && k.sys.threads == map[]
    ensures k.sys.regions == map[] && k.place == map[] && Core(k)
    ensures forall p: nat, j: nat :: IsLive(k.dyna, p, j) <==> OtherObject(k, Object(p, j))
    ensures forall b :: b in TakenBlocks(k.dyna.pages) ==>
              b in OtherBlocks(k) || (b.head in k.dyna.hdr && b == SlabBlock(b.head))
  {
    hide Valid, IsLive, T.Foreign;
    T.AllReaped(k.sys);
    assert Own(k) == map[] by { assert T.Slots(k.sys.threads, k.sys.regions) == {}; }
    forall n
      ensures n !in k.place
    {
    }
    forall b | b in TakenBlocks(k.dyna.pages) && b.head in k.dyna.hdr
      ensures b == SlabBlock(b.head)
    {
      SlabIsForeign(k, b.head);
    }
  }

  /** So after any run in which all threads are reaped, both allocators are as the others' calls
      left them; and if those made none, they hold what they held at first. */
  lemma ReturnsAll(k: State, steps: seq<Step>, e: State)
    requires Inv(k) && Runs(k, steps, e) && e.sys.threads == map[]
    ensures e.sys.regions == map[] && Core(k) && Core(e)
    ensures forall p: nat, j: nat :: IsLive(e.dyna, p, j) <==> OtherObject(e, Object(p, j))
    ensures forall b :: b in TakenBlocks(e.dyna.pages) ==>
              b in OtherBlocks(e) || (b.head in e.dyna.hdr && b == SlabBlock(b.head))
    ensures (forall i :: 0 <= i < |steps| ==> steps[i].Threads?) ==> SameOthers(k, e)
  {
    hide Core, Runs, IsLive, OtherObject, OtherBlocks;
    RunsKeep(k, steps, e);
    AllReaped(e);
  }

  /** The system as it boots. */
  lemma Boot(d: Dyna)
    requires SlabInv(d)
    ensures var k := State(T.Sys(d.pages, map[], map[], [], [], 1, 2, 0), d, map[]);
            && Inv(k) && OtherBlocks(k) == S.Handed(d)
            && forall o :: OtherObject(k, o) <==> IsLive(d, o.slab, o.slot)
  {
    hide IsLive;
    T.Boot(d.pages);
    assert T.Owned(map[], map[]) == map[];
  }

  /** dyna_alloc never refuses a thread's structure, which is of a class that cannot get stuck. */
  lemma ThreadServed(k: State, id: nat)
    requires Core(k) && ThreadOf(id) !in k.place && CanServe(k.dyna, THREAD_SIZE)
    ensures Obtain(k, ThreadOf(id)).Some?
  {
    hide T.Owned, SlabInv, Stuck;
    CoreValid(k);
    PlaceKeeps(k, ThreadOf(id));
    S.NeverStuck(k.dyna, PoolIdx(THREAD_SIZE));
  }
}
