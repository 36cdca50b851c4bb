/** When a new thread gets its structures.  The structures of workloads and regions are of the
    smallest class, whose one slab serves 128 objects; thread_init does not look at what dyna_alloc
    returns (lib/thread/thread.c), so that fork_s and run_prog can write through a null pointer
    with memory to spare. */
module Refusals {
  import opened Machine
  import opened SlabState
  import opened SlabOps
  import opened Kernel
  import BuddyState
  import BuddyTheory
  import B = BuddyOps
  import S = SlabRuns
  import T = Threads

  /** How many objects the slab of the smallest class serves. */
  const SMALL_OBJECTS: nat := 128

  /** The live objects of the smallest class, whoever they belong to. */
  ghost function Small(k: State): nat
    requires Core(k)
  {
    S.LiveOf(k.dyna, 0)
  }

  ghost predicate NewId(k: State) {
    ThreadOf(k.sys.nextId) !in k.place && WorkloadOf(k.sys.nextId) !in k.place
  }

  /** There are pages for a new thread: for slabs, where its structures need a new one, and for its
      stacks. */
  ghost predicate PagesForThread(k: State)
    requires Core(k) && NewId(k)
  {
    && CanServe(k.dyna, THREAD_SIZE)
    && (PlaceKeeps(k, ThreadOf(k.sys.nextId));
        PagesForRest(Place(k, ThreadOf(k.sys.nextId))))
  }

  ghost predicate PagesForRest(k: State)
    requires Core(k) && WorkloadOf(k.sys.nextId) !in k.place
  {
    && CanServe(k.dyna, EXCEPT_WORKLOAD_SIZE)
    && T.StacksAvailable(Place(k, WorkloadOf(k.sys.nextId)).sys.pages)
  }

  lemma Classes()
    ensures PoolIdx(THREAD_SIZE) == 16 && PoolIdx(EXCEPT_WORKLOAD_SIZE) == PoolIdx(RC_REGION_SIZE) == 0
    ensures ObjSize(0) == 16 && Slots(Capacity(16)) == SMALL_OBJECTS
  {
    S.SlotsOfSixteen();
  }

  /** Given pages, a thread gets its structures exactly if the smallest class is not stuck. */
  lemma StructuresExact(k: State)
    requires Core(k) && NewId(k) && PagesForThread(k)
    ensures Structures(k).Some? <==> !Stuck(k.dyna, 0)
  {
    hide T.StacksAvailable, T.Owned, SlabInv, CanServe, Stuck, SameOthers, Place, Core;
    CoreValid(k);
    Classes();
    var id := k.sys.nextId;
    ThreadServed(k, id);
    PlaceKeeps(k, ThreadOf(id));
    var k1 := Place(k, ThreadOf(id));
    CoreValid(k1);
    StuckKept(k, id);
    PlaceKeeps(k1, WorkloadOf(id));
  }

  /** The structure of the thread itself is of another class. */
  lemma StuckKept(k: State, id: nat)
    requires Core(k) && CanServe(k.dyna, THREAD_SIZE)
    ensures var e := Place(k, ThreadOf(id)).dyna; SlabInv(e) && (Stuck(e, 0) <==> Stuck(k.dyna, 0))
    ensures var e := Place(k, ThreadOf(id)).dyna; S.LiveOf(e, 0) == S.LiveOf(k.dyna, 0)
  {
    hide Stuck, T.Owned, DynaAlloc, S.LiveOf;
    Classes();
    CoreValid(k);
    S.OtherClass(k.dyna, THREAD_SIZE, 0);
  }

  /** As many objects of the smallest class as its slab serves. */
  lemma SmallExactly(k: State)
    requires Core(k) && S.OneSlab(k.dyna)
    ensures Small(k) <= SMALL_OBJECTS && (Stuck(k.dyna, 0) <==> Small(k) == SMALL_OBJECTS)
  {
    hide Stuck, T.Owned, SlabInv, S.LiveOf, Slots;
    Classes();
    CoreValid(k);
    S.AtMostOne(k.dyna, 0);
    S.StuckExactly(k.dyna, 0);
  }

  /** fork_s, given pages, gets its structures exactly if the smallest class is not stuck before the
      call; while that class has one slab at most, if fewer than 128 objects of it are live. */
  lemma ForkExact(k: State, usp: nat, ksp: nat)
    requires Inv(k) && MayFork(k, usp, ksp)
    ensures Core(k) && NewId(k)
    ensures PagesForThread(k) ==> (Fork(k, usp, ksp).Some? <==> !Stuck(k.dyna, 0))
    ensures PagesForThread(k) && S.OneSlab(k.dyna) ==> (Fork(k, usp, ksp).Some? <==> Small(k) < SMALL_OBJECTS)
  {
    hide Core, PagesForThread, Small, Stuck, SlabInv, Structures, S.OneSlab;
    Whole(k);
    CoreValid(k);
    NewNames(k);
    if PagesForThread(k) {
      StructuresExact(k);
      if S.OneSlab(k.dyna) { SmallExactly(k); }
    }
  }

  /** A structure of the smallest class counts one, once it is placed. */
  lemma PlaceCounts(k: State, n: Name)
    requires Core(k) && CanServe(k.dyna, SizeOf(n)) && n !in k.place && S.OneSlab(k.dyna) && !n.ThreadOf?
    ensures var e := Place(k, n);
            && Core(e) && S.OneSlab(e.dyna)
            && Small(e) == if n in e.place then Small(k) + 1 else Small(k)
  {
    hide Stuck, T.Owned, T.OwnsOk, DynaAlloc, S.LiveOf, ObjectsOk;
    Classes();
    CoreValid(k);
    PlaceKeeps(k, n);
    S.ServedLive(k.dyna, SizeOf(n));
  }

  /** The pages of the thread system's own blocks have no part in it. */
  lemma WithCounts(k: State, s: T.Sys)
    requires Core(k) && Core(With(k, s))
    ensures Small(With(k, s)) == Small(k) && (S.OneSlab(With(k, s).dyna) <==> S.OneSlab(k.dyna))
  {
    hide T.Owned, T.OwnsOk, ObjectsOk;
  }

  lemma RcAllocCounts(k: State, order: nat)
    requires Core(k) && RegionOf(k.sys.nextRegion) !in k.place && CanServe(k.dyna, RC_REGION_SIZE)
    requires k.sys.nextRegion !in k.sys.regions && S.OneSlab(k.dyna)
    requires k.sys.nextRegion in RcAlloc(k, order).sys.regions
    ensures var e := RcAlloc(k, order); Core(e) && S.OneSlab(e.dyna) && Small(e) == Small(k) + 1
  {
    hide Core, Small, T.Owned, SlabInv, CanServe, T.CanTake, T.Take, Stuck, DynaAlloc, S.OneSlab, OtherObject,
         OtherBlocks;
    CoreValid(k);
    var n := RegionOf(k.sys.nextRegion);
    PlaceKeeps(k, n);
    PlaceCounts(k, n);
    RcAllocKeeps(k, order);
    var k1 := Place(k, n);
    CoreValid(k1);
    WithCounts(k1, T.NewRegion(k1.sys, order));
  }

  /** run_prog, given pages: rc_alloc returns NULL, which is looked at, exactly if the smallest class
      is stuck before the call; and the thread gets its structures exactly if the class is not stuck
      after rc_alloc. */
  lemma RunProgStuck(k: State, order: nat)
    requires Inv(k) && CanServe(k.dyna, RC_REGION_SIZE)
    ensures Core(k) && RegionOf(k.sys.nextRegion) !in k.place
    ensures var r := k.sys.nextRegion; var k1 := RcAlloc(k, order);
            && (T.CanTake(Place(k, RegionOf(r)).sys.pages, order) ==> (r in k1.sys.regions <==> !Stuck(k.dyna, 0)))
            && (r in k1.sys.regions ==>
                  && Core(k1) && NewId(k1)
                  && (PagesForThread(k1) ==> (Spawn(k, order).Some? <==> !Stuck(k1.dyna, 0))))
  {
    hide Inv, Core, T.Owned, SlabInv, CanServe, T.CanTake, T.Take, Stuck, DynaAlloc, RcAlloc, Structures,
         PagesForThread, SameOthers;
    Whole(k);
    CoreValid(k);
    NewNames(k);
    Classes();
    RcAllocKeeps(k, order);
    var k1 := RcAlloc(k, order);
    if k.sys.nextRegion in k1.sys.regions && PagesForThread(k1) {
      StructuresExact(k1);
    }
  }

  /** While the class has one slab at most: NULL exactly if 128 of its objects are live, and with 127
      rc_alloc takes the last one and the new thread gets no workload. */
  lemma RunProgExact(k: State, order: nat)
    requires Inv(k) && CanServe(k.dyna, RC_REGION_SIZE) && S.OneSlab(k.dyna)
    ensures Core(k) && RegionOf(k.sys.nextRegion) !in k.place
    ensures var r := k.sys.nextRegion; var k1 := RcAlloc(k, order);
            && (T.CanTake(Place(k, RegionOf(r)).sys.pages, order) ==>
                  (r in k1.sys.regions <==> Small(k) < SMALL_OBJECTS))
            && (r in k1.sys.regions ==>
                  && Core(k1) && NewId(k1)
                  && (PagesForThread(k1) ==> (Spawn(k, order).Some? <==> Small(k) < SMALL_OBJECTS - 1)))
  {
    hide Inv, Core, Small, T.Owned, SlabInv, CanServe, T.CanTake, T.Take, Stuck, DynaAlloc, S.OneSlab, RcAlloc,
         Spawn, PagesForThread;
    RunProgStuck(k, order);
    NewNames(k);
    SmallExactly(k);
    if k.sys.nextRegion in RcAlloc(k, order).sys.regions {
      RcAllocCounts(k, order);
      SmallExactly(RcAlloc(k, order));
    }
  }

  /** Over every run of threads and of others that starts with at most one slab in each small class, as
      boot does: given pages, fork_s can be called without harm exactly while fewer than 128 objects
      of the smallest class are live. */
  lemma ForksInRun(k: State, steps: seq<Step>, e: State, usp: nat, ksp: nat)
    requires Inv(k) && S.OneSlab(k.dyna) && Runs(k, steps, e) && MayFork(e, usp, ksp)
    ensures Inv(e) && Core(e) && NewId(e)
    ensures PagesForThread(e) ==>
              (Enabled(e, Step.Threads(T.Forking(usp, ksp))) <==> Small(e) < SMALL_OBJECTS)
  {
    hide Core, PagesForThread, Small, SlabInv, Fork, S.OneSlab, Runs, SameOthers;
    RunsKeep(k, steps, e);
    ForkExact(e, usp, ksp);
  }

  // ----- a run of forks -----

  ghost function Tops(k: State): nat {
    B.TopBlocks(k.sys.pages)
  }

  /** Free blocks of the top order are enough for a dyna_alloc, which takes at most one of them. */
  lemma DynaTops(k: State, n: Name)
    requires Core(k) && n !in k.place
    ensures Tops(k) > 0 ==> CanServe(k.dyna, SizeOf(n))
    ensures CanServe(k.dyna, SizeOf(n)) ==>
              var e := Place(k, n);
              Core(e) && Tops(e) + 1 >= Tops(k) && |e.sys.pages.lists| == |k.sys.pages.lists|
  {
    hide T.Owned, T.OwnsOk, ObjectsOk, B.AllocOrder, AllocSlot, B.TopBlocks;
    B.AllocFromTop(k.dyna.pages, 0);
    TopThere(k);
    if CanServe(k.dyna, SizeOf(n)) { PlaceKeeps(k, n); }
  }

  lemma TopThere(k: State)
    requires Core(k)
    ensures k.sys.pages.Top() >= 0
  {
    B.ListsInRange(k.dyna.pages);
  }

  /** The same for the stacks. */
  lemma TakeTops(p: BuddyState.Pages, order: nat)
    requires BuddyTheory.Valid(p)
    ensures order <= p.Top() && B.TopBlocks(p) > 0 ==> T.CanTake(p, order)
    ensures T.CanTake(p, order) ==>
              var r := T.Take(p, order).0;
              BuddyTheory.Valid(r) && B.TopBlocks(r) + 1 >= B.TopBlocks(p) && |r.lists| == |p.lists|
  {
    hide B.AllocOrder, B.TopBlocks;
    B.AllocFromTop(p, order);
    B.AllocTheorem(p, order);
  }

  lemma StacksTops(p: BuddyState.Pages)
    requires BuddyTheory.Valid(p) && p.Top() >= T.USER_ORDER && B.TopBlocks(p) >= 2
    ensures T.StacksAvailable(p)
  {
    hide B.TopBlocks, T.CanTake, T.Take;
    TakeTops(p, T.USER_ORDER);
    TakeTops(T.Take(p, T.USER_ORDER).0, T.KERNEL_ORDER);
  }

  /** Four free blocks of the top order are enough for a thread. */
  lemma PagesEnough(k: State)
    requires Core(k) && NewId(k) && k.sys.pages.Top() >= T.USER_ORDER && Tops(k) >= 4
    ensures PagesForThread(k)
  {
    hide Core, SlabInv, CanServe, T.StacksAvailable, T.Owned, B.TopBlocks, DynaAlloc, SameOthers;
    var id := k.sys.nextId;
    CoreValid(k);
    DynaTops(k, ThreadOf(id));
    PlaceKeeps(k, ThreadOf(id));
    var k1 := Place(k, ThreadOf(id));
    CoreValid(k1);
    DynaTops(k1, WorkloadOf(id));
    var k2 := Place(k1, WorkloadOf(id));
    CoreValid(k2);
    StacksTops(k2.sys.pages);
  }

  /** Whoever may fork, with pages. */
  ghost predicate Ready(k: State, usp: nat, ksp: nat) {
    Inv(k) && Core(k) && MayFork(k, usp, ksp) && S.OneSlab(k.dyna) && k.sys.pages.Top() >= T.USER_ORDER
  }

  /** The structures of a new thread use up one more object of the smallest class. */
  lemma StructuresCount(k: State)
    requires Core(k) && NewId(k) && S.OneSlab(k.dyna) && Structures(k).Some?
    ensures var e := Structures(k).value;
            && Core(e) && S.OneSlab(e.dyna) && Small(e) == Small(k) + 1
            && Tops(e) + 2 >= Tops(k) && |e.sys.pages.lists| == |k.sys.pages.lists|
  {
    hide Core, Small, T.Owned, SlabInv, CanServe, Stuck, T.StacksAvailable, B.TopBlocks, OtherObject, OtherBlocks,
         S.OneSlab, Place;
    var id := k.sys.nextId;
    CoreValid(k);
    PlaceKeeps(k, ThreadOf(id));
    DynaTops(k, ThreadOf(id));
    ThreadCounts(k, id);
    var k1 := Place(k, ThreadOf(id));
    CoreValid(k1);
    PlaceKeeps(k1, WorkloadOf(id));
    DynaTops(k1, WorkloadOf(id));
    PlaceCounts(k1, WorkloadOf(id));
  }

  lemma ThreadCounts(k: State, id: nat)
    requires Core(k) && CanServe(k.dyna, THREAD_SIZE) && ThreadOf(id) !in k.place
    ensures Core(Place(k, ThreadOf(id))) && Small(Place(k, ThreadOf(id))) == Small(k)
  {
    hide T.Owned, SlabInv, CanServe, Stuck, S.LiveOf, Place, Core;
    CoreValid(k);
    PlaceKeeps(k, ThreadOf(id));
    CoreValid(Place(k, ThreadOf(id)));
    StuckKept(k, id);
  }

  /** fork_s by a thread that is ready: it stays so, with one live object more and at most four free
      blocks of the top order less. */
  lemma ForkStep(k: State, usp: nat, ksp: nat)
    requires Ready(k, usp, ksp) && Tops(k) >= 4 && Small(k) < SMALL_OBJECTS
    ensures Fork(k, usp, ksp).Some?
    ensures var e := Fork(k, usp, ksp).value;
            Ready(e, usp, ksp) && Small(e) == Small(k) + 1 && Tops(e) + 4 >= Tops(k)
  {
    hide Core, Small, T.Owned, SlabInv, CanServe, Stuck, T.StacksAvailable, B.TopBlocks, T.Take, T.CanTake, T.Inv,
         S.OneSlab, OtherObject, OtherBlocks, Structures, PagesForThread, NamesOk;
    NewNames(k);
    PagesEnough(k);
    ForkExact(k, usp, ksp);
    ForkKeeps(k, usp, ksp);
    StructuresKeeps(k);
    StructuresCount(k);
    var k1 := Structures(k).value;
    var e := Fork(k, usp, ksp).value;
    CoreValid(k);
    CoreValid(k1);
    Kernel.Whole(e);
    CoreValid(e);
    CanForkThen(k, k1, usp, ksp);
    WithCounts(k1, T.Fork(k1.sys, usp, ksp));
    ForkTops(k1.sys, usp, ksp);
  }

  lemma ForkTops(s: T.Sys, usp: nat, ksp: nat)
    requires T.CanFork(s, usp, ksp)
    ensures var p := T.Fork(s, usp, ksp).pages;
            B.TopBlocks(p) + 2 >= B.TopBlocks(s.pages) && |p.lists| == |s.pages.lists|
  {
    hide B.TopBlocks, T.Take, B.AllocOrder;
    TakeTops(s.pages, T.USER_ORDER);
    TakeTops(T.Take(s.pages, T.USER_ORDER).0, T.KERNEL_ORDER);
  }

  lemma CanForkThen(k: State, e: State, usp: nat, ksp: nat)
    requires Inv(k) && MayFork(k, usp, ksp) && e.sys == k.sys.(pages := e.sys.pages)
    requires T.StacksAvailable(e.sys.pages)
    ensures T.CanFork(e.sys, usp, ksp)
  {
    hide Core, T.StacksAvailable, T.OwnsOk, T.Owned, NamesOk;
  }

  /** A thread that forks and forks: when 128 objects of the smallest class are live the next fork_s
      writes through a null pointer, although there are pages for its thread. */
  lemma {:induction false} ForkRun(k: State, usp: nat, ksp: nat) returns (steps: seq<Step>, e: State)
    requires Ready(k, usp, ksp) && Small(k) <= SMALL_OBJECTS && Tops(k) >= 4 * (SMALL_OBJECTS - Small(k)) + 4
    ensures Runs(k, steps, e) && |steps| == SMALL_OBJECTS - Small(k)
    ensures forall i :: 0 <= i < |steps| ==> steps[i] == Step.Threads(T.Forking(usp, ksp))
    ensures Ready(e, usp, ksp) && NewId(e) && PagesForThread(e) && Small(e) == SMALL_OBJECTS
    ensures Fork(e, usp, ksp) == None
    decreases SMALL_OBJECTS - Small(k)
  {
    hide Core, Small, T.Inv, NamesOk, MayFork, Fork, B.TopBlocks, S.OneSlab, PagesForThread, Enabled, After;
    if Small(k) == SMALL_OBJECTS {
      steps, e := [], k;
      NewNames(k);
      PagesEnough(k);
      ForkExact(k, usp, ksp);
    } else {
      ForkStep(k, usp, ksp);
      var m := Fork(k, usp, ksp).value;
      var s := Step.Threads(T.Forking(usp, ksp));
      ForkIs(k, usp, ksp);
      var rest;
      rest, e := ForkRun(m, usp, ksp);
      steps := [s] + rest;
      StepKeeps(k, s);
      assert steps[0] == s && steps[1..] == rest;
    }
  }

  lemma ForkIs(k: State, usp: nat, ksp: nat)
    requires Inv(k) && MayFork(k, usp, ksp) && Fork(k, usp, ksp).Some?
    ensures var s := Step.Threads(T.Forking(usp, ksp)); Enabled(k, s) && After(k, s) == Fork(k, usp, ksp).value
  {
    hide Fork, T.Inv, Core, NamesOk;
  }

  // ----- from boot -----

  /** rc_alloc, with pages and an object of the smallest class to spare. */
  lemma RegionStep(k: State, order: nat)
    requires Inv(k) && Core(k) && S.OneSlab(k.dyna) && order <= k.sys.pages.Top()
    requires Tops(k) >= 2 && Small(k) < SMALL_OBJECTS
    ensures CanServe(k.dyna, RC_REGION_SIZE)
    ensures RegionOf(k.sys.nextRegion) !in k.place && k.sys.nextRegion !in k.sys.regions
    ensures var e := RcAlloc(k, order); var r := k.sys.nextRegion;
            && Core(e) && NewId(e) && S.OneSlab(e.dyna) && Small(e) == Small(k) + 1
            && Tops(e) + 2 >= Tops(k) && |e.sys.pages.lists| == |k.sys.pages.lists|
            && r in e.sys.regions
            && e.sys == k.sys.(pages := e.sys.pages, nextRegion := r + 1, regions := e.sys.regions)
  {
    hide Core, Small, T.Owned, SlabInv, CanServe, Stuck, B.TopBlocks, T.Take, T.CanTake, Inv, S.OneSlab, OtherObject,
         OtherBlocks, PagesForThread, RcAlloc, DynaAlloc;
    NewNames(k);
    CoreValid(k);
    var n := RegionOf(k.sys.nextRegion);
    DynaTops(k, n);
    CoreValid(Place(k, n));
    TakeTops(Place(k, n).sys.pages, order);
    RunProgExact(k, order);
    RcAllocKeeps(k, order);
    RcAllocCounts(k, order);
    RcAllocTops(k, order);
  }

  /** run_prog, with pages and two objects of the smallest class to spare. */
  lemma SpawnStep(k: State, order: nat)
    requires Inv(k) && Core(k) && S.OneSlab(k.dyna) && k.sys.pages.Top() >= T.USER_ORDER && order <= k.sys.pages.Top()
    requires Tops(k) >= 6 && Small(k) + 1 < SMALL_OBJECTS
    ensures Spawn(k, order).Some?
    ensures var e := Spawn(k, order).value; var id := k.sys.nextId;
            && Inv(e) && Core(e) && S.OneSlab(e.dyna) && Small(e) == Small(k) + 2
            && Tops(e) + 6 >= Tops(k) && |e.sys.pages.lists| == |k.sys.pages.lists|
            && id in e.sys.threads && e.sys.run == k.sys.run + [id] && e.sys.curr == k.sys.curr
  {
    hide Core, Small, T.Owned, SlabInv, CanServe, Stuck, T.StacksAvailable, B.TopBlocks, T.Take, T.CanTake, T.Inv,
         S.OneSlab, OtherObject, OtherBlocks, Structures, PagesForThread, NamesOk, RcAlloc;
    RegionStep(k, order);
    var k1 := RcAlloc(k, order);
    CoreValid(k1);
    PagesEnough(k1);
    RunProgExact(k, order);
    SpawnKeeps(k, order);
    StructuresCount(k1);
    StructuresKeeps(k1);
    var k2 := Structures(k1).value;
    CoreValid(k2);
    Kernel.Whole(Spawn(k, order).value);
    CoreValid(Spawn(k, order).value);
    WithCounts(k2, T.MakeThread(k2.sys, k.sys.nextRegion));
    MakeThreadTops(k2.sys, k.sys.nextRegion);
  }

  lemma RcAllocTops(k: State, order: nat)
    requires Core(k) && RegionOf(k.sys.nextRegion) !in k.place && CanServe(k.dyna, RC_REGION_SIZE)
    requires k.sys.nextRegion !in k.sys.regions && k.sys.nextRegion in RcAlloc(k, order).sys.regions
    ensures var e := RcAlloc(k, order); Tops(e) + 2 >= Tops(k) && |e.sys.pages.lists| == |k.sys.pages.lists|
  {
    hide Core, T.Owned, SlabInv, CanServe, T.CanTake, T.Take, DynaAlloc, B.TopBlocks;
    CoreValid(k);
    DynaTops(k, RegionOf(k.sys.nextRegion));
    var k1 := Place(k, RegionOf(k.sys.nextRegion));
    CoreValid(k1);
    TakeTops(k1.sys.pages, order);
  }

  lemma MakeThreadTops(s: T.Sys, prog: nat)
    requires T.StacksAvailable(s.pages)
    ensures var p := T.MakeThread(s, prog).pages;
            B.TopBlocks(p) + 2 >= B.TopBlocks(s.pages) && |p.lists| == |s.pages.lists|
  {
    hide B.TopBlocks, T.Take, B.AllocOrder;
    TakeTops(s.pages, T.USER_ORDER);
    TakeTops(T.Take(s.pages, T.USER_ORDER).0, T.KERNEL_ORDER);
  }

  /** A thread that gets the processor may fork. */
  lemma FirstScheduled(k: State) returns (usp: nat, ksp: nat)
    requires Inv(k) && Core(k) && k.sys.curr <= 1 && |k.sys.run| == 1
    ensures var e := k.(sys := T.Schedule(k.sys));
            && Inv(e) && Core(e) && MayFork(e, usp, ksp) && e.dyna == k.dyna && e.sys.pages == k.sys.pages
            && Enabled(k, Step.Threads(T.Scheduling)) && After(k, Step.Threads(T.Scheduling)) == e
  {
    hide Core, T.OwnsOk, T.CountsOk, T.Owned, NamesOk;
    StepKeeps(k, Step.Threads(T.Scheduling));
    var id := k.sys.run[0];
    assert id in k.sys.run && id in k.sys.threads;
    usp, ksp := k.sys.threads[id].usp, k.sys.threads[id].ksp;
  }

  /** From boot, with empty pools and 516 free blocks of the top order: one program starts and forks
      126 times, and its next fork_s writes through a null pointer. */
  lemma ForksFromBoot(d: Dyna, order: nat) returns (steps: seq<Step>, e: State, usp: nat, ksp: nat)
    requires SlabInv(d) && (forall k :: 0 <= k < |d.pools| ==> d.pools[k] == [])
    requires d.pages.Top() >= T.USER_ORDER && order <= d.pages.Top() && B.TopBlocks(d.pages) >= 516
    ensures var k := State(T.Sys(d.pages, map[], map[], [], [], 1, 2, 0), d, map[]);
            Inv(k) && Runs(k, steps, e) && |steps| == SMALL_OBJECTS
    ensures steps[0] == Step.Threads(T.Spawning(order)) && steps[1] == Step.Threads(T.Scheduling)
    ensures forall i :: 2 <= i < |steps| ==> steps[i] == Step.Threads(T.Forking(usp, ksp))
    ensures Ready(e, usp, ksp) && NewId(e) && PagesForThread(e) && Fork(e, usp, ksp) == None
  {
    hide Core, Small, T.Inv, NamesOk, MayFork, Fork, Spawn, B.TopBlocks, PagesForThread, SlabInv, T.Schedule, S.OneSlab;
    var k := State(T.Sys(d.pages, map[], map[], [], [], 1, 2, 0), d, map[]);
    Boot(d);
    Kernel.Whole(k);
    NoneYet(k);
    SpawnStep(k, order);
    var k1 := Spawn(k, order).value;
    var first, second := Step.Threads(T.Spawning(order)), Step.Threads(T.Scheduling);
    StepKeeps(k, first);
    usp, ksp := FirstScheduled(k1);
    var k2 := k1.(sys := T.Schedule(k1.sys));
    StepKeeps(k1, second);
    SameCount(k1, k2);
    var rest;
    rest, e := ForkRun(k2, usp, ksp);
    steps := [first, second] + rest;
    TwoMore(k, first, k1, second, k2, rest, e);
  }

  lemma NoneYet(k: State)
    requires Core(k) && forall i :: 0 <= i < |k.dyna.pools| ==> k.dyna.pools[i] == []
    ensures Small(k) == 0 && S.OneSlab(k.dyna)
  {
    hide T.Owned, T.OwnsOk, ObjectsOk;
  }

  lemma SameCount(k: State, e: State)
    requires Core(k) && Core(e) && e.dyna == k.dyna
    ensures Small(e) == Small(k)
  {
    hide T.Owned, T.OwnsOk, ObjectsOk;
  }

  lemma TwoMore(k: State, a: Step, k1: State, b: Step, k2: State, rest: seq<Step>, e: State)
    requires Inv(k) && Enabled(k, a) && After(k, a) == k1 && Inv(k1) && Enabled(k1, b) && After(k1, b) == k2
    requires Inv(k2) && Runs(k2, rest, e)
    ensures Runs(k, [a, b] + rest, e)
  {
    hide Inv, Enabled, After;
    StepKeeps(k, a);
    StepKeeps(k1, b);
    var steps := [a, b] + rest;
    assert steps[1..] == [b] + rest && steps[1..][1..] == rest;
  }
}
