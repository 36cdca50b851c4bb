/** lib/thread/thread.c, lib/allocator/re_region.c and the fork and kill calls of
    lib/exception/syscall.c in place: the thread and region structures, the queues and the page
    allocator's arrays are overwritten.  A thread's structure stands at the index that is its id. */
module ThreadSystem {
  import opened Machine
  import opened LinkedNodes
  import opened ThreadQueues
  import opened PageAllocator
  import B = BuddyOps
  import BuddyState
  import BuddyTheory
  import T = Threads

  /** The fields of a thread's structure that matter here. */
  datatype Structure = Structure(prog: nat, alive: bool, usp: nat, ksp: nat)

  /** A region's structure: its count and the address of its memory. */
  datatype RCregion = RCregion(count: nat, mem: nat)

  function Fields(t: T.Thread): Structure {
    Structure(t.prog, t.alive, t.usp, t.ksp)
  }

  class Scheduler {
    const pages: Allocator
    const queues: Queues
    const ids: array<nat>
    const table: array<Structure>
    const regions: array<RCregion>
    var curr: nat
    var total: nat
    var nextRegion: nat
    ghost var sys: T.Sys

    ghost function PageHeap(): set<object> {
      {pages, pages.nodes, pages.status, pages.freeList, pages.nodes.prev, pages.nodes.next}
    }

    ghost function QueueHeap(): set<object> {
      {queues, queues.nodes, queues.nodes.prev, queues.nodes.next, queues.front, queues.back, queues.size}
    }

    ghost function TableHeap(): set<object> {
      {ids as object, table as object, regions as object}
    }

    ghost predicate Apart() {
      && PageHeap() !! QueueHeap() !! TableHeap() !! {this}
      && queues.nodes.next.Length == ids.Length == table.Length
    }

    ghost predicate PagesTied()
      reads this, PageHeap()
    {
      pages.Valid() && pages.State() == sys.pages
    }

    ghost predicate QueuesTied()
      reads this, QueueHeap()
    {
      queues.Valid() && queues.lists == [sys.run, [], sys.dead]
    }

    ghost predicate TablesTied()
      reads this, TableHeap()
    {
      && curr == sys.curr && total == sys.nextId && nextRegion == sys.nextRegion
      && (forall id :: id in sys.threads ==>
            id < table.Length == ids.Length && ids[id] == id && table[id] == Fields(sys.threads[id]))
      && (forall r :: r in sys.regions ==>
            r < regions.Length && regions[r] == RCregion(sys.regions[r].count, sys.regions[r].mem * PAGE_SIZE))
    }

    /** The structures, queues and arrays hold the system. */
    ghost predicate Tied()
      reads this, PageHeap(), QueueHeap(), TableHeap()
    {
      Apart() && PagesTied() && QueuesTied() && TablesTied()
    }

    ghost predicate Valid()
      reads this, PageHeap(), QueueHeap(), TableHeap()
    {
      Tied() && T.Inv(sys)
    }

    /** init_thread_sys, once the idle and the boot thread have their stacks */
    constructor (p: Allocator, q: Queues, programs: nat)
      requires p.Valid() && q.Valid() && q.lists == [[], [], []]
      requires {p, p.nodes, p.status, p.freeList, p.nodes.prev, p.nodes.next} !!
               {q, q.nodes, q.nodes.prev, q.nodes.next, q.front, q.back, q.size}
      ensures Valid() && pages == p && queues == q && regions.Length == programs
      ensures sys == T.Sys(p.State(), map[], map[], [], [], 1, 2, 0)
    {
      hide Allocator.Valid, Queues.Valid, T.Inv, T.Foreign;
      BootReady(p);
      pages, queues := p, q;
      ids := new nat[q.nodes.next.Length];
      table := new Structure[q.nodes.next.Length];
      regions := new RCregion[programs];
      curr, total, nextRegion := 1, 2, 0;
      sys := T.Sys(p.State(), map[], map[], [], [], 1, 2, 0);
    }

    static lemma BootReady(p: Allocator)
      requires p.Valid()
      ensures T.Inv(T.Sys(p.State(), map[], map[], [], [], 1, 2, 0))
    {
      T.Boot(p.State());
    }

    // ----- stacks and regions -----

    /** page_alloc of a size that is known to be there. */
    method TakePages(size: nat, ghost order: nat) returns (page: nat)
      requires Tied() && 0 < size < WORD && OrderFor(size) == order && T.CanTake(sys.pages, order)
      modifies this`sys, PageHeap()
      ensures Tied() && (sys.pages, page) == T.Take(old(sys.pages), order)
      ensures sys == old(sys).(pages := sys.pages)
    {
      hide B.AllocOrder, OrderFor, BuddyTheory.Valid, Queues.Valid;
      ghost var got;
      var addr;
      addr, got := pages.PageAlloc(size);
      page := addr / PAGE_SIZE;
      sys := sys.(pages := pages.State());
    }

    /** page_free of the block at a page. */
    method GivePages(page: nat)
      requires Tied() && page < |sys.pages.status| && sys.pages.Sized()
      modifies this`sys, PageHeap()
      ensures Tied() && sys == old(sys).(pages := B.FreeAt(old(sys.pages), page))
    {
      hide B.FreeAt, BuddyTheory.Valid;
      pages.PageFree(page * PAGE_SIZE);
      sys := sys.(pages := pages.State());
    }

    static lemma StackOrders()
      ensures OrderFor(T.USER_STACK_SIZE) == T.USER_ORDER && OrderFor(T.KERNEL_STACK_SIZE) == T.KERNEL_ORDER
    {
      assert PagesLessOne(T.USER_STACK_SIZE) == 63 && PagesLessOne(T.KERNEL_STACK_SIZE) == 15;
      assert BitLength(15) == 4 && BitLength(63) == 2 + BitLength(15);
    }

    // ----- make_thread -----

    /** make_thread and thread_init, which do not check that the stacks can be had */
    method MakeThread(prog: nat) returns (id: nat)
      requires Tied() && T.StacksAvailable(sys.pages) && total < table.Length
      requires sys.nextId !in sys.threads && sys.nextId !in sys.run && sys.nextId !in sys.dead
      modifies this, PageHeap(), QueueHeap(), ids, table
      ensures Tied() && id == old(total) && sys == T.MakeThread(old(sys), prog)
    {
      hide T.Take, T.CanTake, OrderFor, BuddyTheory.Valid;
      StackOrders();
      id := total;
      var u := TakePages(T.USER_STACK_SIZE, T.USER_ORDER);
      var k := TakePages(T.KERNEL_STACK_SIZE, T.KERNEL_ORDER);
      var usp, ksp := u * PAGE_SIZE + T.USER_STACK_SIZE - 16, k * PAGE_SIZE + T.KERNEL_STACK_SIZE - 16;
      StartThread(id, prog, usp, ksp, T.Thread(prog, true, u, k, usp, ksp));
    }

    /** The structure of a new thread, and its place at the end of the run queue. */
    method StartThread(id: nat, prog: nat, usp: nat, ksp: nat, ghost t: T.Thread)
      requires Fields(t) == Structure(prog, true, usp, ksp)
      requires Tied() && id == total < table.Length && id !in sys.threads && id !in sys.run && id !in sys.dead
      modifies this`sys, this`total, QueueHeap(), ids, table
      ensures Tied()
      ensures sys == old(sys).(threads := old(sys).threads[id := t], run := old(sys).run + [id], nextId := id + 1)
    {
      hide Allocator.Valid, Queues.Valid, PageHeap, QueueHeap;
      ids[id] := id;
      table[id] := Structure(prog, true, usp, ksp);
      total := total + 1;
      sys := sys.(threads := sys.threads[id := t], nextId := id + 1);
      PushRun(id);
    }

    // ----- the queues -----

    static lemma OffQueues(run: seq<nat>, dead: seq<nat>, x: nat)
      ensures On([run, [], dead], x) <==> x in run || x in dead
    {
      var lists := [run, [], dead];
      assert lists[RUN] == run && lists[DEAD] == dead;
    }

    /** queue_push of a thread on the run queue */
    method PushRun(id: nat)
      requires Tied() && id < table.Length && id !in sys.run && id !in sys.dead
      modifies this`sys, QueueHeap()
      ensures Tied() && sys == old(sys).(run := old(sys).run + [id])
    {
      hide On, Allocator.Valid, Queues.Valid;
      OffQueues(sys.run, sys.dead, id);
      queues.Push(RUN, id);
      sys := sys.(run := sys.run + [id]);
    }

    /** queue_push of a thread on the dead queue */
    method PushDead(id: nat)
      requires Tied() && id < table.Length && id !in sys.run && id !in sys.dead
      modifies this`sys, QueueHeap()
      ensures Tied() && sys == old(sys).(dead := old(sys).dead + [id])
    {
      hide On, Allocator.Valid, Queues.Valid;
      OffQueues(sys.run, sys.dead, id);
      queues.Push(DEAD, id);
      sys := sys.(dead := sys.dead + [id]);
    }

    /** queue_pop of the run queue */
    method PopRun() returns (head: int)
      requires Tied()
      modifies this`sys, QueueHeap()
      ensures Tied()
      ensures if old(sys).run == [] then head == NULL && sys == old(sys)
              else head == old(sys).run[0] && sys == old(sys).(run := old(sys).run[1..])
    {
      hide Allocator.Valid, Queues.Valid;
      head := queues.Pop(RUN);
      sys := if sys.run == [] then sys else sys.(run := sys.run[1..]);
    }

    // ----- schedule -----

    /** schedule, with switch_to for its last step: the chosen thread is the current one */
    method Schedule()
      requires Tied()
      requires curr > 1 ==> curr in sys.threads && (table[curr].alive ==> curr !in sys.run && curr !in sys.dead)
      modifies this`sys, this`curr, QueueHeap()
      ensures Tied() && sys == T.Schedule(old(sys))
    {
      hide Allocator.Valid, Queues.Valid, PageHeap, QueueHeap, TableHeap;
      var preemptee := curr;
      if preemptee > 1 && table[preemptee].alive {
        PushRun(preemptee);
      }
      var head := PopRun();
      curr := if head == NULL then T.IDLE else head;
      sys := sys.(curr := curr);
    }

    // ----- kill -----

    /** A thread's `alive` is cleared. */
    method Bury(id: nat)
      requires Tied() && id in sys.threads
      modifies this`sys, table
      ensures Tied() && sys == old(sys).(threads := old(sys).threads[id := old(sys).threads[id].(alive := false)])
    {
      hide Allocator.Valid, Queues.Valid;
      table[id] := table[id].(alive := false);
      sys := sys.(threads := sys.threads[id := sys.threads[id].(alive := false)]);
    }

    /** kill_curr_thread, in a user thread */
    method KillCurr()
      requires Valid() && curr > 1
      modifies this`sys, this`curr, QueueHeap(), table
      ensures curr == sys.curr && old(sys).curr in old(sys).threads
      ensures Valid() && sys == T.KillCurr(old(sys))
    {
      hide Allocator.Valid, Queues.Valid, PageHeap, QueueHeap, TableHeap, T.OwnsOk, T.CountsOk, T.StacksOk,
           T.Schedule, NoDup;
      T.DyingKeeps(sys);
      Bury(curr);
      PushDead(curr);
      Schedule();
    }

    /** find_thread: the thread and the queue it is in; the current thread is in none */
    method FindThread(pid: nat) returns (found: int, location: int)
      requires Valid()
      ensures Valid()
      ensures found == if pid == curr || pid in sys.run then pid else NULL
      ensures location == if pid != curr && pid in sys.run then RUN else NULL
    {
      hide Allocator.Valid, Queues.Valid, PageHeap, QueueHeap, TableHeap, T.OwnsOk, T.CountsOk, T.StacksOk, NoDup;
      if pid == curr {
        return curr, NULL;
      }
      assert queues.lists[RUN] == sys.run && queues.lists[WAIT] == [];
      found := queues.Find(RUN, pid, ids);
      if found != NULL {
        return found, RUN;
      }
      found := queues.Find(WAIT, pid, ids);
      return found, NULL;
    }

    /** kill_thread, of a thread found in the run queue */
    method KillThread(target: nat)
      requires Valid() && target in sys.run
      modifies this`sys, QueueHeap(), table
      ensures forall id :: id in old(sys).run ==> id in old(sys).threads
      ensures Valid() && target != curr && sys == T.Kill(old(sys), target)
    {
      hide Allocator.Valid, Queues.Valid, PageHeap, QueueHeap, TableHeap, T.OwnsOk, T.CountsOk, T.StacksOk, Without;
      T.KillKeeps(sys, target);
      WithoutMembers(sys.run, target);
      Bury(target);
      EraseRun(target);
      PushDead(target);
    }

    /** kill_s; a pid that is no user thread's is not for the current thread to give */
    method Kill(pid: nat)
      requires Valid() && (pid == curr ==> curr > 1)
      modifies this`sys, this`curr, QueueHeap(), table
      ensures pid == old(sys).curr ==> pid in old(sys).threads
      ensures forall id :: id in old(sys).run ==> id in old(sys).threads
      ensures Valid() && sys == T.Kill(old(sys), pid)
    {
      hide Allocator.Valid, Queues.Valid, PageHeap, QueueHeap, TableHeap, Tied, T.OwnsOk, T.CountsOk, T.StacksOk;
      CurrIs();
      T.KillKeeps(sys, pid);
      if pid == curr {
        KillCurr();
        return;
      }
      var found, location := FindThread(pid);
      if found != NULL {
        KillThread(found);
      }
    }

    lemma CurrIs()
      requires Tied()
      ensures curr == sys.curr
    {
    }

    /** queue_erase of a thread of the run queue */
    method EraseRun(id: nat)
      requires Tied() && id in sys.run
      modifies this`sys, QueueHeap()
      ensures Tied() && sys == old(sys).(run := Without(old(sys).run, id))
    {
      hide Allocator.Valid, Queues.Valid, Without;
      assert queues.lists[RUN] == sys.run;
      queues.Erase(RUN, id);
      sys := sys.(run := Without(sys.run, id));
    }

    // ----- regions -----

    /** rc_alloc, with page 0 out of reach: a region at page 0 would be taken for a failure */
    method RcAlloc(size: nat) returns (region: int)
      requires Tied() && size < WORD && nextRegion < regions.Length && sys.nextRegion !in sys.regions
      requires 0 < |sys.pages.status| && BuddyTheory.Valid(sys.pages) && !BuddyTheory.FreePage(sys.pages, 0)
      modifies this`sys, this`nextRegion, PageHeap(), regions
      ensures Tied()
      ensures if size > 0 && T.CanTake(old(sys).pages, OrderFor(size))
              then region == old(nextRegion) && sys == T.NewRegion(old(sys), OrderFor(size))
              else region == NULL && sys == old(sys)
    {
      hide T.Take, T.CanTake, OrderFor, BuddyTheory.Valid, BuddyTheory.FreePage, Allocator.Valid, Queues.Valid;
      ghost var order := OrderFor(size);
      ghost var was := sys;
      var mem := AllocPages(size, order);
      if mem == 0 {
        return NULL;
      }
      region := nextRegion;
      regions[region] := RCregion(1, mem);
      nextRegion := nextRegion + 1;
      sys := T.NewRegion(was, order);
    }

    /** page_alloc, with page 0 out of reach: its address would be NULL. */
    method AllocPages(size: nat, ghost order: nat) returns (addr: nat)
      requires Tied() && size < WORD && order == OrderFor(size)
      requires 0 < |sys.pages.status| && BuddyTheory.Valid(sys.pages) && !BuddyTheory.FreePage(sys.pages, 0)
      modifies this`sys, PageHeap()
      ensures Tied()
      ensures if size > 0 && T.CanTake(old(sys).pages, order)
              then var (p, t) := T.Take(old(sys).pages, order);
                   addr == t * PAGE_SIZE > 0 && sys == old(sys).(pages := p)
              else addr == 0 && sys == old(sys)
    {
      hide B.AllocOrder, OrderFor, BuddyTheory.Valid, BuddyTheory.FreePage, Queues.Valid;
      TakenNotZero(sys.pages, order);
      ghost var got;
      addr, got := pages.PageAlloc(size);
      sys := sys.(pages := pages.State());
    }

    static lemma TakenNotZero(p: BuddyState.Pages, order: nat)
      requires BuddyTheory.Valid(p) && 0 < |p.status| && !BuddyTheory.FreePage(p, 0)
      ensures T.CanTake(p, order) ==> T.Take(p, order).1 != 0
      ensures !T.CanTake(p, order) ==> B.AllocOrder(p, order) == (p, None)
    {
      B.AllocTheorem(p, order);
      if T.CanTake(p, order) {
        var t := B.AllocOrder(p, order).1.value;
        assert BuddyTheory.FreePage(p, t);
      }
    }

    /** run_prog: load_program, create_prog_thread and schedule */
    method RunProg(size: nat) returns (err: nat)
      requires Valid() && size < WORD && T.CanSpawn(sys, OrderFor(size))
      requires nextRegion < regions.Length && total < table.Length
      modifies this, PageHeap(), QueueHeap(), ids, table, regions
      ensures Valid()
      ensures err == if size > 0 && T.CanTake(old(sys).pages, OrderFor(size)) then 0 else 1
      ensures sys == if err == 0 then T.Schedule(T.Spawn(old(sys), OrderFor(size))) else old(sys)
    {
      hide Allocator.Valid, Queues.Valid, PageHeap, QueueHeap, TableHeap, OrderFor, T.OwnsOk, T.CountsOk,
           T.StacksOk, T.Schedule, NoDup, T.CanTake, T.StacksAvailable, BuddyTheory.FreePage, T.Take,
           T.Foreign;
      ghost var order := OrderFor(size);
      T.SpawnKeeps(sys, order);
      T.RegionFresh(sys);
      var dest := RcAlloc(size);
      if dest == NULL {
        return 1;
      }
      var id := MakeThread(dest);
      T.ScheduleKeeps(sys);
      Schedule();
      return 0;
    }

    // ----- fork -----

    /** add_ref */
    method AddRef(r: nat)
      requires Tied() && r in sys.regions
      modifies this`sys, regions
      ensures Tied()
      ensures var region := old(sys).regions[r];
              sys == old(sys).(regions := old(sys).regions[r := region.(count := region.count + 1)])
    {
      hide Allocator.Valid, Queues.Valid;
      regions[r] := regions[r].(count := regions[r].count + 1);
      sys := sys.(regions := sys.regions[r := sys.regions[r].(count := sys.regions[r].count + 1)]);
    }

    /** A thread's saved stack pointers are set. */
    method SetStacks(id: nat, usp: nat, ksp: nat)
      requires Tied() && id in sys.threads
      modifies this`sys, table
      ensures Tied()
      ensures sys == old(sys).(threads := old(sys).threads[id := old(sys).threads[id].(usp := usp, ksp := ksp)])
    {
      hide Allocator.Valid, Queues.Valid;
      table[id] := table[id].(usp := usp, ksp := ksp);
      sys := sys.(threads := sys.threads[id := sys.threads[id].(usp := usp, ksp := ksp)]);
    }

    /** GET_STACK_TOP of a thread's saved user stack pointer */
    method UserStackTop(id: nat) returns (top: nat)
      requires Tied() && id in sys.threads
      requires T.OwnsOk(sys.pages, T.Owned(sys.threads, sys.regions)) && T.StacksOk(sys.threads)
      ensures Tied() && top == sys.threads[id].ustack * PAGE_SIZE
    {
      hide Allocator.Valid, Queues.Valid, T.OwnsOk, T.StacksOk, T.Owned;
      T.StacksFound(sys, id);
      top := table[id].usp / T.USER_STACK_SIZE * T.USER_STACK_SIZE;
    }

    method KernelStackTop(id: nat) returns (top: nat)
      requires Tied() && id in sys.threads
      requires T.OwnsOk(sys.pages, T.Owned(sys.threads, sys.regions)) && T.StacksOk(sys.threads)
      ensures Tied() && top == sys.threads[id].kstack * PAGE_SIZE
    {
      hide Allocator.Valid, Queues.Valid, T.OwnsOk, T.StacksOk, T.Owned;
      T.StacksFound(sys, id);
      top := table[id].ksp / T.KERNEL_STACK_SIZE * T.KERNEL_STACK_SIZE;
    }

    /** fork_s; usp is sp_el0 and frame the trap frame's address in the kernel stack */
    method Fork(usp: nat, frame: nat) returns (child: nat)
      requires Valid() && T.CanFork(sys, usp, frame) && total < table.Length
      modifies this, PageHeap(), QueueHeap(), ids, table, regions
      ensures Valid() && child == old(total) && sys == T.Fork(old(sys), usp, frame)
    {
      hide Allocator.Valid, Queues.Valid, PageHeap, QueueHeap, TableHeap, T.OwnsOk, T.CountsOk, T.StacksOk,
           NoDup, T.CanTake, T.StacksAvailable, T.Foreign, T.Owned, T.Take, T.MakeThread, T.Fork, T.PlacesOk;
      T.RegionFresh(sys);
      ForkIs(sys, usp, frame);
      T.ForkKeeps(sys, usp, frame);
      var parent := curr;
      var prog := table[parent].prog;
      T.MakeThreadKeeps(sys, prog);
      child := MakeThread(prog);
      MoveStacks(parent, child, usp, frame);
      AddRef(prog);
    }

    /** fork_s as a make_thread and what comes after it. */
    static lemma ForkIs(s: T.Sys, usp: nat, frame: nat)
      requires T.CanFork(s, usp, frame) && s.nextId !in s.threads
      ensures var prog := s.threads[s.curr].prog; var m := T.MakeThread(s, prog);
              && s.nextId in m.threads && s.curr in m.threads && m.threads[s.curr] == s.threads[s.curr]
              && m.regions == s.regions
              && var p, c := m.threads[s.curr], m.threads[s.nextId];
                 T.Fork(s, usp, frame) ==
                   m.(threads := m.threads[s.nextId :=
                        c.(usp := c.ustack * PAGE_SIZE + (usp - p.ustack * PAGE_SIZE),
                           ksp := c.kstack * PAGE_SIZE + (frame - p.kstack * PAGE_SIZE))],
                      regions := m.regions[prog := m.regions[prog].(count := m.regions[prog].count + 1)])
    {
    }

    /** The child's stack pointers keep the offsets that the parent's have now. */
    method MoveStacks(parent: nat, child: nat, usp: nat, frame: nat)
      requires Tied() && parent in sys.threads && child in sys.threads
      requires T.OwnsOk(sys.pages, T.Owned(sys.threads, sys.regions)) && T.StacksOk(sys.threads)
      requires T.Inside(usp, sys.threads[parent].ustack, T.USER_STACK_SIZE)
      requires T.Inside(frame, sys.threads[parent].kstack, T.KERNEL_STACK_SIZE)
      modifies this`sys, table
      ensures Tied()
      ensures var p, c := old(sys).threads[parent], old(sys).threads[child];
              sys == old(sys).(threads := old(sys).threads[child :=
                       c.(usp := c.ustack * PAGE_SIZE + (usp - p.ustack * PAGE_SIZE),
                          ksp := c.kstack * PAGE_SIZE + (frame - p.kstack * PAGE_SIZE))])
    {
      hide Allocator.Valid, Queues.Valid, PageHeap, QueueHeap, TableHeap, T.OwnsOk, T.StacksOk, T.Owned;
      var pUstackTop := UserStackTop(parent);
      var cUstackTop := UserStackTop(child);
      var pKstackTop := KernelStackTop(parent);
      var cKstackTop := KernelStackTop(child);
      SetStacks(child, cUstackTop + (usp - pUstackTop), cKstackTop + (frame - pKstackTop));
    }

    // ----- reaping -----

    /** rc_free */
    method RcFree(r: nat)
      requires Tied() && r in sys.regions && sys.regions[r].count > 0
      requires sys.pages.Sized() && sys.regions[r].mem < |sys.pages.status|
      modifies this`sys, PageHeap(), regions
      ensures Tied() && sys == T.Unref(old(sys), r)
    {
      hide Allocator.Valid, Queues.Valid, B.FreeAt;
      ghost var was := sys;
      regions[r] := regions[r].(count := regions[r].count - 1);
      sys := sys.(regions := sys.regions[r := sys.regions[r].(count := sys.regions[r].count - 1)]);
      if regions[r].count == 0 {
        GivePages(regions[r].mem / PAGE_SIZE);
        sys := sys.(regions := was.regions - {r});
      }
    }

    /** queue_pop of the dead queue */
    method PopDead() returns (head: nat)
      requires Tied() && sys.dead != []
      modifies this`sys, QueueHeap()
      ensures Tied() && head == old(sys).dead[0] && sys == old(sys).(dead := old(sys).dead[1..])
    {
      hide Allocator.Valid, Queues.Valid;
      assert queues.lists[DEAD] == sys.dead;
      head := queues.Pop(DEAD);
      sys := sys.(dead := sys.dead[1..]);
    }

    /** One round of kill_zombies. */
    method Reap()
      requires Valid() && sys.dead != []
      modifies this`sys, PageHeap(), QueueHeap(), regions
      ensures Valid() && sys == T.ReapOne(old(sys))
    {
      hide Allocator.Valid, Queues.Valid, PageHeap, QueueHeap, TableHeap, T.OwnsOk, T.CountsOk, T.StacksOk,
           T.PlacesOk, T.Foreign, T.Owned, B.FreeAt, BuddyTheory.Valid;
      T.ReapReady(sys);
      T.ReapOneKeeps(sys);
      T.StacksFound(sys, sys.dead[0]);
      var id := PopDead();
      RcFree(table[id].prog);
      GiveStacks(id);
    }

    /** page_free of a dead thread's stacks, found by masking its stack pointers. */
    method GiveStacks(id: nat)
      requires Tied() && id in sys.threads && sys.pages.Sized()
      requires var t := sys.threads[id];
               && t.ustack < |sys.pages.status| && t.kstack < |sys.pages.status|
               && t.usp / T.USER_STACK_SIZE * T.USER_STACK_SIZE == t.ustack * PAGE_SIZE
               && t.ksp / T.KERNEL_STACK_SIZE * T.KERNEL_STACK_SIZE == t.kstack * PAGE_SIZE
      modifies this`sys, PageHeap()
      ensures Tied()
      ensures var t := old(sys).threads[id]; var p := B.FreeAt(old(sys).pages, t.ustack);
              sys == old(sys).(pages := B.FreeAt(p, t.kstack), threads := old(sys).threads - {id})
    {
      hide Allocator.Valid, Queues.Valid, B.FreeAt, BuddyTheory.Valid, PageHeap, QueueHeap, TableHeap;
      var usp := table[id].usp / T.USER_STACK_SIZE * T.USER_STACK_SIZE;
      var ksp := table[id].ksp / T.KERNEL_STACK_SIZE * T.KERNEL_STACK_SIZE;
      GivePages(usp / PAGE_SIZE);
      GivePages(ksp / PAGE_SIZE);
      sys := sys.(threads := sys.threads - {id});
    }

    /** kill_zombies */
    method KillZombies()
      requires Valid()
      modifies this`sys, PageHeap(), QueueHeap(), regions
      ensures Valid() && sys == T.ReapAll(old(sys)) && sys.dead == []
    {
      hide Allocator.Valid, Queues.Valid, PageHeap, QueueHeap, TableHeap, T.Inv, T.ReapOne, T.Foreign, T.Owned;
      while true
        invariant Valid() && T.ReapAll(sys) == T.ReapAll(old(sys))
        decreases |sys.dead|
      {
        assert queues.lists[DEAD] == sys.dead;
        var empty := queues.Empty(DEAD);
        if empty {
          return;
        }
        T.ReapOneKeeps(sys);
        Reap();
      }
    }
  }
}
