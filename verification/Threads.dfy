/** The life of threads (lib/thread/thread.c, lib/exception/syscall.c) and of the program regions
    they share (lib/allocator/re_region.c), over the page allocator that backs both. */
module Threads {
  import opened Machine
  import opened Bits
  import opened LinkedNodes
  import opened BuddyState
  import opened BuddyTheory
  import B = BuddyOps

  const USER_STACK_SIZE: nat := 0x40000
  const KERNEL_STACK_SIZE: nat := 0x10000
  const USER_ORDER: nat := 6
  const KERNEL_ORDER: nat := 4
  const IDLE: nat := 0

  /** A thread that has not been reaped: its program region, its stacks (by page) and the stack
      pointers saved in its state. */
  datatype Thread = Thread(prog: nat, alive: bool, ustack: nat, kstack: nat, usp: nat, ksp: nat)

  /** A program region: its count, and its block of pages. */
  datatype Region = Region(count: nat, mem: nat, order: nat)

  /** Thread ids count up from 2 here: 0 is the idle thread and 1 the boot thread, which are never
      queued, killed or reaped. */
  datatype Sys = Sys(pages: Pages, threads: map<nat, Thread>, regions: map<nat, Region>,
                     run: seq<nat>, dead: seq<nat>, curr: nat, nextId: nat, nextRegion: nat)

  // ----- where threads are -----

  /** Every unreaped thread is current, in the run queue or in the dead queue, and in one of these
      only; it is dead exactly in the dead queue. */
  ghost predicate PlacesOk(threads: map<nat, Thread>, run: seq<nat>, dead: seq<nat>, curr: nat, nextId: nat) {
    && NoDup(run) && NoDup(dead)
    && (forall id :: id in run ==> id in threads && id !in dead && id != curr && threads[id].alive)
    && (forall id :: id in dead ==> id in threads && id != curr && !threads[id].alive)
    && (forall id :: id in threads ==> 1 < id < nextId && (id == curr || id in run || id in dead))
    && (if curr > 1 then curr in threads && threads[curr].alive else true)
    && nextId > 1
  }

  // ----- what threads share -----

  ghost function Namers(threads: map<nat, Thread>, r: nat): set<nat> {
    set id | id in threads && threads[id].prog == r
  }

  /** Each region's count is the number of unreaped threads that name it, and is not zero. */
  ghost predicate CountsOk(threads: map<nat, Thread>, regions: map<nat, Region>, nextRegion: nat) {
    && (forall id :: id in threads ==> threads[id].prog in regions)
    && (forall r :: r in regions ==> r < nextRegion && regions[r].count == |Namers(threads, r)| > 0)
  }

  lemma NamersAdd(threads: map<nat, Thread>, id: nat, t: Thread, r: nat)
    requires id !in threads
    ensures Namers(threads[id := t], r) == if t.prog == r then Namers(threads, r) + {id} else Namers(threads, r)
  {
  }

  lemma NamersDrop(threads: map<nat, Thread>, id: nat, r: nat)
    requires id in threads
    ensures Namers(threads - {id}, r) == if threads[id].prog == r then Namers(threads, r) - {id} else Namers(threads, r)
  {
  }

  lemma NamersSame(threads: map<nat, Thread>, threads': map<nat, Thread>, r: nat)
    requires threads.Keys == threads'.Keys && forall id :: id in threads ==> threads[id].prog == threads'[id].prog
    ensures Namers(threads', r) == Namers(threads, r)
  {
  }

  // ----- what threads own -----

  datatype Slot = UserStack(id: nat) | KernelStack(id: nat) | Program(r: nat)

  ghost function Slots(threads: map<nat, Thread>, regions: map<nat, Region>): (slots: set<Slot>)
    ensures forall x :: x in slots <==>
              match x
              case UserStack(id) => id in threads
              case KernelStack(id) => id in threads
              case Program(r) => r in regions
  {
    (set id | id in threads :: UserStack(id)) + (set id | id in threads :: KernelStack(id))
    + (set r | r in regions :: Program(r))
  }

  ghost function Owned(threads: map<nat, Thread>, regions: map<nat, Region>): map<Slot, Block> {
    map x | x in Slots(threads, regions) ::
      match x
      case UserStack(id) => Block(threads[id].ustack, USER_ORDER, OCCUPIED)
      case KernelStack(id) => Block(threads[id].kstack, KERNEL_ORDER, OCCUPIED)
      case Program(r) => Block(regions[r].mem, regions[r].order, OCCUPIED)
  }

  /** Every stack and every program region is an allocated block of its own. */
  ghost predicate OwnsOk(pages: Pages, own: map<Slot, Block>) {
    && Valid(pages)
    && (forall x :: x in own ==> own[x] in TakenBlocks(pages) && own[x].kind == OCCUPIED)
    && (forall x, y :: x in own && y in own && x != y ==> own[x].head != own[y].head)
  }

  /** The taken blocks that belong to no thread and no region. */
  ghost function Foreign(pages: Pages, own: map<Slot, Block>): set<Block>
    requires Valid(pages)
  {
    set b | b in TakenBlocks(pages) && b !in own.Values
  }

  predicate Inside(sp: nat, page: nat, size: nat) {
    page * PAGE_SIZE <= sp < page * PAGE_SIZE + size
  }

  /** Saved stack pointers point into their stacks. */
  ghost predicate StacksOk(threads: map<nat, Thread>) {
    forall id :: id in threads ==>
      && Inside(threads[id].usp, threads[id].ustack, USER_STACK_SIZE)
      && Inside(threads[id].ksp, threads[id].kstack, KERNEL_STACK_SIZE)
  }

  ghost predicate Inv(s: Sys) {
    && OwnsOk(s.pages, Owned(s.threads, s.regions))
    && PlacesOk(s.threads, s.run, s.dead, s.curr, s.nextId)
    && CountsOk(s.threads, s.regions, s.nextRegion)
    && StacksOk(s.threads)
  }

  // ----- masking a stack pointer -----

  /** `sp &= ~(size - 1)`, as a page */
  function MaskedPage(sp: nat, size: nat): nat
    requires size > 0
  {
    sp / size * size / PAGE_SIZE
  }

  /** Masking leads back to the block page_alloc gave from the pointers inside the stack, and from
      no others. */
  lemma MaskFindsStack(sp: nat, page: nat, order: nat, size: nat)
    requires Aligned(page, order) && size == Pow2(order) * PAGE_SIZE
    ensures size > 0 && (MaskedPage(sp, size) == page <==> Inside(sp, page, size))
    ensures Inside(sp, page, size) ==> sp / size * size == page * PAGE_SIZE
  {
    if Inside(sp, page, size) {
      InsideIsFound(sp, page, order, size);
    }
    var q := sp / size;
    assert sp == size * q + sp % size;
    assert q * size == PAGE_SIZE * (Pow2(order) * q) by {
      assert q * (Pow2(order) * PAGE_SIZE) == PAGE_SIZE * (Pow2(order) * q);
    }
    assert q * size == size * q;
  }

  lemma InsideIsFound(sp: nat, page: nat, order: nat, size: nat)
    requires Aligned(page, order) && size == Pow2(order) * PAGE_SIZE && Inside(sp, page, size)
    ensures MaskedPage(sp, size) == page && sp / size * size == page * PAGE_SIZE
  {
    AlignedIsDivisible(page, order);
    var n := Pow2(order);
    var q := page / n;
    assert page == n * q;
    assert page * PAGE_SIZE == size * q by {
      assert (n * q) * PAGE_SIZE == (n * PAGE_SIZE) * q;
    }
    ModIs(sp, size, q, sp - page * PAGE_SIZE);
    assert sp / size * size == page * PAGE_SIZE by { assert q * size == size * q; }
  }

  lemma StackSizes()
    ensures Pow2(USER_ORDER) * PAGE_SIZE == USER_STACK_SIZE
    ensures Pow2(KERNEL_ORDER) * PAGE_SIZE == KERNEL_STACK_SIZE
  {
    assert Pow2(4) == 16;
    assert Pow2(6) == 64;
  }

  // ----- operations -----

  /** page_alloc of a known order; the caller must know that it succeeds. */
  ghost predicate CanTake(pages: Pages, order: nat) {
    Valid(pages) && B.AllocOrder(pages, order).1.Some?
  }

  ghost function Take(pages: Pages, order: nat): (r: (Pages, nat))
    requires CanTake(pages, order)
    ensures Valid(r.0)
  {
    B.AllocTheorem(pages, order);
    var (p, got) := B.AllocOrder(pages, order);
    (p, got.value)
  }

  lemma TakeIs(pages: Pages, order: nat)
    requires CanTake(pages, order)
    ensures var (p, t) := Take(pages, order);
            && Valid(p) && |p.status| == |pages.status|
            && TakenBlocks(p) == TakenBlocks(pages) + {Block(t, order, OCCUPIED)}
            && (forall b :: b in TakenBlocks(pages) ==> b.head != t)
            && Aligned(t, order)
  {
    B.AllocTheorem(pages, order);
    var (p, t) := Take(pages, order);
    assert FreeRun(pages, t, order);
    assert FreePage(pages, t);
    assert Marked(pages.status, Ord(pages), t);
  }

  /** thread_init takes both stacks; it does not check that page_alloc succeeds. */
  ghost predicate StacksAvailable(pages: Pages) {
    CanTake(pages, USER_ORDER) && CanTake(Take(pages, USER_ORDER).0, KERNEL_ORDER)
  }

  /** make_thread for a region: the thread joins the run queue. */
  ghost function MakeThread(s: Sys, prog: nat): Sys
    requires StacksAvailable(s.pages)
  {
    var (p1, u) := Take(s.pages, USER_ORDER);
    var (p2, k) := Take(p1, KERNEL_ORDER);
    var t := Thread(prog, true, u, k, u * PAGE_SIZE + USER_STACK_SIZE - 16, k * PAGE_SIZE + KERNEL_STACK_SIZE - 16);
    s.(pages := p2, threads := s.threads[s.nextId := t], run := s.run + [s.nextId], nextId := s.nextId + 1)
  }

  /** rc_alloc, once the page block is found */
  ghost function NewRegion(s: Sys, order: nat): Sys
    requires CanTake(s.pages, order)
  {
    var (p, m) := Take(s.pages, order);
    s.(pages := p, regions := s.regions[s.nextRegion := Region(1, m, order)], nextRegion := s.nextRegion + 1)
  }

  /** load_program and create_prog_thread: a region of its own for a new thread.  When the region's
      pages cannot be had nothing happens.  A region at page 0 would look like that too, which is
      why start-up reserves page 0. */
  ghost predicate CanSpawn(s: Sys, order: nat)
    requires Valid(s.pages)
  {
    && 0 < |s.pages.status| && !FreePage(s.pages, 0)
    && (CanTake(s.pages, order) ==> StacksAvailable(NewRegion(s, order).pages))
  }

  ghost function Spawn(s: Sys, order: nat): Sys
    requires Valid(s.pages) && CanSpawn(s, order)
  {
    if !CanTake(s.pages, order) then s else MakeThread(NewRegion(s, order), s.nextRegion)
  }

  /** fork_s, by a user thread whose stack pointers are now usp and ksp: the child shares the
      region, and its stack pointers keep their offsets. */
  ghost predicate CanFork(s: Sys, usp: nat, ksp: nat) {
    && s.curr > 1 && s.curr in s.threads && s.threads[s.curr].prog in s.regions && StacksAvailable(s.pages)
    && Inside(usp, s.threads[s.curr].ustack, USER_STACK_SIZE)
    && Inside(ksp, s.threads[s.curr].kstack, KERNEL_STACK_SIZE)
  }

  ghost function Fork(s: Sys, usp: nat, ksp: nat): Sys
    requires CanFork(s, usp, ksp)
  {
    var parent := s.threads[s.curr];
    var m := MakeThread(s, parent.prog);
    var child := m.threads[s.nextId];
    var region := s.regions[parent.prog];
    m.(threads := s.threads[s.nextId := child.(usp := child.ustack * PAGE_SIZE + (usp - parent.ustack * PAGE_SIZE),
                                               ksp := child.kstack * PAGE_SIZE + (ksp - parent.kstack * PAGE_SIZE))],
       regions := s.regions[parent.prog := region.(count := region.count + 1)])
  }

  /** schedule: the current thread goes behind the others if it may, and the first takes over. */
  function Schedule(s: Sys): Sys {
    var run := if s.curr > 1 && s.curr in s.threads && s.threads[s.curr].alive then s.run + [s.curr] else s.run;
    if run == [] then s.(run := [], curr := IDLE) else s.(run := run[1..], curr := run[0])
  }

  function Dying(s: Sys, id: nat): Sys
    requires id in s.threads
  {
    s.(threads := s.threads[id := s.threads[id].(alive := false)], dead := s.dead + [id])
  }

  /** kill_curr_thread, in a user thread */
  function KillCurr(s: Sys): Sys
    requires s.curr in s.threads
  {
    Schedule(Dying(s, s.curr))
  }

  /** kill_s: only the current thread and threads in the run queue can be found. */
  function Kill(s: Sys, pid: nat): Sys
    requires pid == s.curr ==> s.curr in s.threads
    requires forall id :: id in s.run ==> id in s.threads
  {
    if pid == s.curr then KillCurr(s)
    else if pid in s.run then Dying(s.(run := Without(s.run, pid)), pid)
    else s
  }

  /** rc_free */
  ghost function Unref(s: Sys, r: nat): (e: Sys)
    requires r in s.regions && s.regions[r].count > 0
    requires s.pages.Sized() && s.regions[r].mem < |s.pages.status|
    ensures e.pages.Sized() && |e.pages.status| == |s.pages.status|
  {
    var region := s.regions[r];
    if region.count == 1 then s.(pages := B.FreeAt(s.pages, region.mem), regions := s.regions - {r})
    else s.(regions := s.regions[r := region.(count := region.count - 1)])
  }

  // ----- ownership under allocation and freeing -----

  lemma OwnTake(pages: Pages, own: map<Slot, Block>, x: Slot, order: nat)
    requires OwnsOk(pages, own) && CanTake(pages, order) && x !in own
    ensures var (p, t) := Take(pages, order); var own' := own[x := Block(t, order, OCCUPIED)];
            && OwnsOk(p, own') && Foreign(p, own') == Foreign(pages, own) && Aligned(t, order)
            && |p.status| == |pages.status|
  {
    hide Valid, TakenBlocks, Take;
    TakeIs(pages, order);
    var (p, t) := Take(pages, order);
    var b := Block(t, order, OCCUPIED);
    var own' := own[x := b];
    assert b !in own.Values;
    forall c: Block
      ensures c in own'.Values <==> c in own.Values || c == b
    {
      if c in own.Values { var y :| y in own && own[y] == c; assert own'[y] == c; }
      if c == b { assert own'[x] == c; }
    }
  }

  lemma OwnGive(pages: Pages, own: map<Slot, Block>, x: Slot)
    requires OwnsOk(pages, own) && x in own
    ensures own[x].head < |pages.status| && pages.Sized() && Aligned(own[x].head, own[x].order)
    ensures var p := B.FreeAt(pages, own[x].head); var own' := own - {x};
            OwnsOk(p, own') && Foreign(p, own') == Foreign(pages, own) && |p.status| == |pages.status|
  {
    hide TakenBlocks, Held, B.FreeAt;
    var b := own[x];
    TakenFacts(pages, b);
    B.FreeTheorem(pages, b.head);
    var p := B.FreeAt(pages, b.head);
    var own' := own - {x};
    forall c: Block
      ensures c in own'.Values <==> c in own.Values && c != b
    {
      if c in own.Values && c != b { var y :| y in own && own[y] == c; assert own'[y] == c; }
      if c in own'.Values { var y :| y in own' && own'[y] == c; assert own[y] == c && y != x; }
    }
  }

  lemma TakenFacts(pages: Pages, b: Block)
    requires Valid(pages) && b in TakenBlocks(pages)
    ensures b.head < |pages.status| && pages.Sized() && Aligned(b.head, b.order)
    ensures b.kind == pages.status[b.head] && b.order == Ord(pages)[b.head]
  {
    assert BuddyState.Inv(pages, Ord(pages));
    assert Marked(pages.status, Ord(pages), b.head);
  }

  // ----- what a new thread, a new region, or their going changes in ownership -----

  lemma OwnedThread(threads: map<nat, Thread>, regions: map<nat, Region>, id: nat, t: Thread)
    requires id !in threads
    ensures Owned(threads[id := t], regions) ==
              Owned(threads, regions)[UserStack(id) := Block(t.ustack, USER_ORDER, OCCUPIED)]
                                     [KernelStack(id) := Block(t.kstack, KERNEL_ORDER, OCCUPIED)]
    ensures UserStack(id) !in Owned(threads, regions) && KernelStack(id) !in Owned(threads, regions)
  {
  }

  lemma OwnedRegion(threads: map<nat, Thread>, regions: map<nat, Region>, r: nat, g: Region)
    requires r !in regions
    ensures Owned(threads, regions[r := g]) == Owned(threads, regions)[Program(r) := Block(g.mem, g.order, OCCUPIED)]
    ensures Program(r) !in Owned(threads, regions)
  {
  }

  /** Counts, saved stack pointers and life are no matter of ownership. */
  lemma OwnedSame(threads: map<nat, Thread>, regions: map<nat, Region>,
                  threads': map<nat, Thread>, regions': map<nat, Region>)
    requires threads.Keys == threads'.Keys && regions.Keys == regions'.Keys
    requires forall id :: id in threads ==>
               threads[id].ustack == threads'[id].ustack && threads[id].kstack == threads'[id].kstack
    requires forall r :: r in regions ==> regions[r].mem == regions'[r].mem && regions[r].order == regions'[r].order
    ensures Owned(threads', regions') == Owned(threads, regions)
  {
  }

  lemma OwnedDropThread(threads: map<nat, Thread>, regions: map<nat, Region>, id: nat)
    requires id in threads
    ensures var own := Owned(threads, regions);
            && Owned(threads - {id}, regions) == own - {UserStack(id)} - {KernelStack(id)}
            && UserStack(id) in own && KernelStack(id) in own
            && own[UserStack(id)] == Block(threads[id].ustack, USER_ORDER, OCCUPIED)
            && own[KernelStack(id)] == Block(threads[id].kstack, KERNEL_ORDER, OCCUPIED)
  {
    hide Slots;
    var own := Owned(threads, regions);
    var left := Owned(threads - {id}, regions);
    SlotsDrop(threads, regions, id);
    assert left.Keys == (own - {UserStack(id)} - {KernelStack(id)}).Keys;
  }

  lemma SlotsDrop(threads: map<nat, Thread>, regions: map<nat, Region>, id: nat)
    requires id in threads
    ensures UserStack(id) in Slots(threads, regions) && KernelStack(id) in Slots(threads, regions)
    ensures Slots(threads - {id}, regions) == Slots(threads, regions) - {UserStack(id), KernelStack(id)}
  {
  }

  lemma OwnedDropRegion(threads: map<nat, Thread>, regions: map<nat, Region>, r: nat)
    requires r in regions
    ensures var own := Owned(threads, regions);
            && Owned(threads, regions - {r}) == own - {Program(r)}
            && Program(r) in own && own[Program(r)] == Block(regions[r].mem, regions[r].order, OCCUPIED)
  {
  }

  // ----- make_thread -----

  lemma PlacesAdd(threads: map<nat, Thread>, run: seq<nat>, dead: seq<nat>, curr: nat, id: nat, t: Thread)
    requires PlacesOk(threads, run, dead, curr, id) && t.alive
    ensures PlacesOk(threads[id := t], run + [id], dead, curr, id + 1)
  {
    assert id !in run;
    NoDupAppend(run, id);
    forall x | x in run + [id]
      ensures x in threads[id := t] && x !in dead && x != curr && threads[id := t][x].alive
    {
      assert x in run || x == id;
    }
    forall x | x in threads[id := t]
      ensures x == curr || x in run + [id] || x in dead
    {
      assert id in run + [id];
    }
  }

  lemma MakeThreadOwns(s: Sys, prog: nat)
    requires OwnsOk(s.pages, Owned(s.threads, s.regions)) && StacksAvailable(s.pages) && s.nextId !in s.threads
    ensures var m := MakeThread(s, prog);
            && OwnsOk(m.pages, Owned(m.threads, m.regions)) && |m.pages.status| == |s.pages.status|
            && Foreign(m.pages, Owned(m.threads, m.regions)) == Foreign(s.pages, Owned(s.threads, s.regions))
  {
    hide OwnsOk, Foreign, Take, CanTake, Valid, Owned;
    var own := Owned(s.threads, s.regions);
    var id := s.nextId;
    var m := MakeThread(s, prog);
    OwnedThread(s.threads, s.regions, id, m.threads[id]);
    var (p1, u) := Take(s.pages, USER_ORDER);
    OwnTake(s.pages, own, UserStack(id), USER_ORDER);
    var own1 := own[UserStack(id) := Block(u, USER_ORDER, OCCUPIED)];
    var (p2, k) := Take(p1, KERNEL_ORDER);
    OwnTake(p1, own1, KernelStack(id), KERNEL_ORDER);
  }

  /** All that make_thread does to the invariant, but for the region's count. */
  lemma MakeThreadKeeps(s: Sys, prog: nat)
    requires OwnsOk(s.pages, Owned(s.threads, s.regions)) && StacksOk(s.threads)
    requires PlacesOk(s.threads, s.run, s.dead, s.curr, s.nextId)
    requires StacksAvailable(s.pages)
    ensures var m := MakeThread(s, prog);
            && OwnsOk(m.pages, Owned(m.threads, m.regions)) && StacksOk(m.threads)
            && |m.pages.status| == |s.pages.status|
            && PlacesOk(m.threads, m.run, m.dead, m.curr, m.nextId)
            && Foreign(m.pages, Owned(m.threads, m.regions)) == Foreign(s.pages, Owned(s.threads, s.regions))
  {
    hide OwnsOk, Foreign, Take, CanTake, Owned, NoDup;
    MakeThreadOwns(s, prog);
    PlacesAdd(s.threads, s.run, s.dead, s.curr, s.nextId, MakeThread(s, prog).threads[s.nextId]);
  }

  // ----- every operation keeps the invariant -----

  lemma CountsAdd(threads: map<nat, Thread>, regions: map<nat, Region>, n: nat, id: nat, t: Thread)
    requires CountsOk(threads, regions, n) && id !in threads && t.prog in regions
    ensures var g := regions[t.prog];
            CountsOk(threads[id := t], regions[t.prog := g.(count := g.count + 1)], n)
  {
    var threads' := threads[id := t];
    forall r | r in regions
      ensures |Namers(threads', r)| == if r == t.prog then regions[r].count + 1 else regions[r].count
    {
      NamersAdd(threads, id, t, r);
    }
  }

  /** Where everything foreign is left as it was. */
  ghost predicate Keeps(s: Sys, t: Sys)
    requires Inv(s)
  {
    && Inv(t)
    && Foreign(t.pages, Owned(t.threads, t.regions)) == Foreign(s.pages, Owned(s.threads, s.regions))
  }

  lemma NewRegionOwns(s: Sys, order: nat)
    requires OwnsOk(s.pages, Owned(s.threads, s.regions)) && CanTake(s.pages, order) && s.nextRegion !in s.regions
    ensures var n := NewRegion(s, order);
            && OwnsOk(n.pages, Owned(n.threads, n.regions)) && |n.pages.status| == |s.pages.status|
            && Foreign(n.pages, Owned(n.threads, n.regions)) == Foreign(s.pages, Owned(s.threads, s.regions))
  {
    hide OwnsOk, Foreign, Take, CanTake, Owned;
    var m := Take(s.pages, order).1;
    OwnedRegion(s.threads, s.regions, s.nextRegion, Region(1, m, order));
    OwnTake(s.pages, Owned(s.threads, s.regions), Program(s.nextRegion), order);
  }

  lemma SpawnKeeps(s: Sys, order: nat)
    requires Inv(s) && CanSpawn(s, order)
    ensures Keeps(s, Spawn(s, order))
  {
    hide OwnsOk, Foreign, Take, CanTake, NoDup, Valid, StacksAvailable, Owned, CountsOk, PlacesOk, StacksOk;
    if CanTake(s.pages, order) {
      RegionFresh(s);
      var m := Take(s.pages, order).1;
      NewRegionOwns(s, order);
      MakeThreadKeeps(NewRegion(s, order), s.nextRegion);
      var r := Spawn(s, order);
      SpawnCounts(s.threads, s.regions, s.nextRegion, s.nextId, r.threads[s.nextId], m, order);
    }
  }

  lemma RegionFresh(s: Sys)
    requires Inv(s)
    ensures s.nextRegion !in s.regions && Valid(s.pages)
    ensures s.nextId !in s.threads && s.nextId !in s.run && s.nextId !in s.dead
  {
  }

  lemma SpawnCounts(threads: map<nat, Thread>, regions: map<nat, Region>, n: nat, id: nat,
                    t: Thread, m: nat, order: nat)
    requires CountsOk(threads, regions, n) && id !in threads && t.prog == n
    ensures CountsOk(threads[id := t], regions[n := Region(1, m, order)], n + 1)
  {
    var threads' := threads[id := t];
    forall r | r in regions || r == n
      ensures |Namers(threads', r)| == if r == n then 1 else regions[r].count
    {
      NamersAdd(threads, id, t, r);
      if r == n { assert Namers(threads, n) == {}; }
    }
  }

  lemma ForkKeeps(s: Sys, usp: nat, ksp: nat)
    requires Inv(s) && CanFork(s, usp, ksp)
    ensures Keeps(s, Fork(s, usp, ksp))
  {
    hide OwnsOk, Foreign, Take, CanTake, NoDup, Valid, StacksAvailable, Owned, CountsOk, PlacesOk;
    var prog := s.threads[s.curr].prog;
    RegionFresh(s);
    MakeThreadKeeps(s, prog);
    var m := MakeThread(s, prog);
    var f := Fork(s, usp, ksp);
    OwnedSame(m.threads, m.regions, f.threads, f.regions);
    CountsAdd(s.threads, s.regions, s.nextRegion, s.nextId, f.threads[s.nextId]);
    assert f.threads == s.threads[s.nextId := f.threads[s.nextId]];
    PlacesAdd(s.threads, s.run, s.dead, s.curr, s.nextId, f.threads[s.nextId]);
  }

  /** The current thread leaves the processor for the run queue. */
  lemma PlacesRequeue(threads: map<nat, Thread>, run: seq<nat>, dead: seq<nat>, curr: nat, nextId: nat)
    requires PlacesOk(threads, run, dead, curr, nextId)
    ensures curr > 1 ==> PlacesOk(threads, run + [curr], dead, IDLE, nextId)
    ensures curr <= 1 ==> PlacesOk(threads, run, dead, IDLE, nextId)
  {
    assert forall x :: x in run + [curr] <==> x in run || x == curr;
  }

  /** The current thread leaves the processor for the dead queue. */
  lemma PlacesDie(threads: map<nat, Thread>, run: seq<nat>, dead: seq<nat>, curr: nat, nextId: nat)
    requires PlacesOk(threads, run, dead, curr, nextId) && curr > 1
    ensures PlacesOk(threads[curr := threads[curr].(alive := false)], run, dead + [curr], IDLE, nextId)
  {
    assert forall x :: x in dead + [curr] <==> x in dead || x == curr;
  }

  /** The first of the run queue takes the processor. */
  lemma PlacesNext(threads: map<nat, Thread>, run: seq<nat>, dead: seq<nat>, nextId: nat)
    requires PlacesOk(threads, run, dead, IDLE, nextId) && run != []
    ensures PlacesOk(threads, run[1..], dead, run[0], nextId)
  {
    assert run == [run[0]] + run[1..];
    assert forall x :: x in run <==> x == run[0] || x in run[1..];
  }

  lemma ScheduleKeeps(s: Sys)
    requires Inv(s)
    ensures Keeps(s, Schedule(s))
  {
    hide OwnsOk, Foreign, Owned, CountsOk, StacksOk, PlacesOk;
    CurrAlive(s);
    PlacesRequeue(s.threads, s.run, s.dead, s.curr, s.nextId);
    var run := if s.curr > 1 then s.run + [s.curr] else s.run;
    if run != [] { PlacesNext(s.threads, run, s.dead, s.nextId); }
  }

  lemma CurrAlive(s: Sys)
    requires PlacesOk(s.threads, s.run, s.dead, s.curr, s.nextId)
    ensures s.curr > 1 <==> s.curr in s.threads
    ensures s.curr > 1 ==> s.threads[s.curr].alive
  {
  }

  lemma DyingKeeps(s: Sys)
    requires Inv(s) && s.curr > 1
    ensures s.curr in s.threads && Keeps(s, KillCurr(s))
  {
    hide OwnsOk, Foreign, Owned, PlacesOk;
    CurrAlive(s);
    var d := Dying(s, s.curr);
    OwnedSame(s.threads, s.regions, d.threads, d.regions);
    SameProgs(s.threads, d.threads, s.regions, s.nextRegion);
    PlacesDie(s.threads, s.run, s.dead, s.curr, s.nextId);
    if s.run != [] { PlacesNext(d.threads, s.run, d.dead, s.nextId); }
  }

  lemma SameProgs(threads: map<nat, Thread>, threads': map<nat, Thread>, regions: map<nat, Region>, n: nat)
    requires CountsOk(threads, regions, n) && threads.Keys == threads'.Keys
    requires forall id :: id in threads ==> threads[id].prog == threads'[id].prog
    ensures CountsOk(threads', regions, n)
  {
    forall r | r in regions
      ensures Namers(threads', r) == Namers(threads, r)
    {
      NamersSame(threads, threads', r);
    }
  }

  lemma PlacesKill(threads: map<nat, Thread>, run: seq<nat>, dead: seq<nat>, curr: nat, nextId: nat, id: nat)
    requires PlacesOk(threads, run, dead, curr, nextId) && id in run
    ensures PlacesOk(threads[id := threads[id].(alive := false)], Without(run, id), dead + [id], curr, nextId)
  {
    WithoutMembers(run, id);
    assert forall x :: x in dead + [id] <==> x in dead || x == id;
  }

  /** Killing by id: the current thread, or one in the run queue; any other id changes nothing. */
  lemma KillKeeps(s: Sys, pid: nat)
    requires Inv(s) && (pid == s.curr ==> s.curr > 1)
    ensures pid == s.curr ==> s.curr in s.threads
    ensures forall id :: id in s.run ==> id in s.threads
    ensures Keeps(s, Kill(s, pid))
    ensures pid !in s.run && pid != s.curr ==> Kill(s, pid) == s
  {
    hide OwnsOk, Foreign, Owned, CountsOk, NoDup;
    if pid == s.curr {
      DyingKeeps(s);
    } else if pid in s.run {
      var e := Kill(s, pid);
      OwnedSame(s.threads, s.regions, e.threads, e.regions);
      SameProgs(s.threads, e.threads, s.regions, s.nextRegion);
      PlacesKill(s.threads, s.run, s.dead, s.curr, s.nextId, pid);
    }
  }

  /** The current thread's stack pointers move, within its stacks. */
  function MoveSp(s: Sys, usp: nat, ksp: nat): Sys
    requires s.curr in s.threads
  {
    s.(threads := s.threads[s.curr := s.threads[s.curr].(usp := usp, ksp := ksp)])
  }

  lemma MoveSpKeeps(s: Sys, usp: nat, ksp: nat)
    requires Inv(s) && s.curr > 1
    requires Inside(usp, s.threads[s.curr].ustack, USER_STACK_SIZE)
    requires Inside(ksp, s.threads[s.curr].kstack, KERNEL_STACK_SIZE)
    ensures Keeps(s, MoveSp(s, usp, ksp))
  {
    hide OwnsOk, Foreign, Owned, CountsOk;
    var e := MoveSp(s, usp, ksp);
    OwnedSame(s.threads, s.regions, e.threads, e.regions);
    SameProgs(s.threads, e.threads, s.regions, s.nextRegion);
  }

  // ----- reaping -----

  /** Masking a thread's saved stack pointers finds its stacks. */
  lemma StacksFound(s: Sys, id: nat)
    requires OwnsOk(s.pages, Owned(s.threads, s.regions)) && StacksOk(s.threads) && id in s.threads
    ensures var t := s.threads[id];
            && s.pages.Sized() && t.ustack < |s.pages.status| && t.kstack < |s.pages.status|
            && MaskedPage(t.usp, USER_STACK_SIZE) == t.ustack && MaskedPage(t.ksp, KERNEL_STACK_SIZE) == t.kstack
            && t.usp / USER_STACK_SIZE * USER_STACK_SIZE == t.ustack * PAGE_SIZE
            && t.ksp / KERNEL_STACK_SIZE * KERNEL_STACK_SIZE == t.kstack * PAGE_SIZE
  {
    hide Owned, TakenBlocks, Valid;
    var t := s.threads[id];
    var own := Owned(s.threads, s.regions);
    OwnedDropThread(s.threads, s.regions, id);
    TakenFacts(s.pages, own[UserStack(id)]);
    TakenFacts(s.pages, own[KernelStack(id)]);
    StackSizes();
    MaskFindsStack(t.usp, t.ustack, USER_ORDER, USER_STACK_SIZE);
    MaskFindsStack(t.ksp, t.kstack, KERNEL_ORDER, KERNEL_STACK_SIZE);
  }

  /** What kill_zombies relies on for the first dead thread: its region counts it, and masking its
      saved stack pointers finds its stacks. */
  lemma ReapReady(s: Sys)
    requires Inv(s) && s.dead != []
    ensures var id := s.dead[0];
            && id in s.threads
            && var t := s.threads[id];
               && t.prog in s.regions && s.regions[t.prog].count > 0 && s.pages.Sized()
               && s.regions[t.prog].mem < |s.pages.status| && t.ustack < |s.pages.status| && t.kstack < |s.pages.status|
               && MaskedPage(t.usp, USER_STACK_SIZE) == t.ustack
               && MaskedPage(t.ksp, KERNEL_STACK_SIZE) == t.kstack
  {
    var id := s.dead[0];
    assert id in s.dead;
    var t := s.threads[id];
    var own := Owned(s.threads, s.regions);
    StacksFound(s, id);
    OwnedDropRegion(s.threads, s.regions, t.prog);
    TakenFacts(s.pages, own[Program(t.prog)]);
  }

  /** page_free of both stacks, by the masked stack pointers; the thread is gone. */
  ghost function FreeStacks(s: Sys, id: nat): Sys
    requires id in s.threads && s.dead != [] && s.pages.Sized()
    requires MaskedPage(s.threads[id].usp, USER_STACK_SIZE) < |s.pages.status|
    requires MaskedPage(s.threads[id].ksp, KERNEL_STACK_SIZE) < |s.pages.status|
  {
    var t := s.threads[id];
    var p1 := B.FreeAt(s.pages, MaskedPage(t.usp, USER_STACK_SIZE));
    var p2 := B.FreeAt(p1, MaskedPage(t.ksp, KERNEL_STACK_SIZE));
    s.(pages := p2, threads := s.threads - {id}, dead := s.dead[1..])
  }

  /** One round of kill_zombies. */
  ghost function ReapOne(s: Sys): Sys
    requires Inv(s) && s.dead != []
  {
    ReapReady(s);
    FreeStacks(Unref(s, s.threads[s.dead[0]].prog), s.dead[0])
  }

  /** kill_zombies: as long as there is a dead thread. */
  ghost function ReapAll(s: Sys): (e: Sys)
    requires Inv(s)
    ensures Keeps(s, e) && e.dead == []
    decreases |s.dead|
  {
    if s.dead == [] then s else (ReapOneKeeps(s); ReapAll(ReapOne(s)))
  }

  lemma CountsDrop(threads: map<nat, Thread>, regions: map<nat, Region>, n: nat, id: nat)
    requires CountsOk(threads, regions, n) && id in threads
    ensures var r := threads[id].prog; var g := regions[r];
            && (g.count == 1 ==> CountsOk(threads - {id}, regions - {r}, n))
            && (g.count > 1 ==> CountsOk(threads - {id}, regions[r := g.(count := g.count - 1)], n))
  {
    var r := threads[id].prog;
    var g := regions[r];
    assert id in Namers(threads, r);
    forall q | q in regions
      ensures |Namers(threads - {id}, q)| == if q == r then regions[q].count - 1 else regions[q].count
    {
      NamersDrop(threads, id, q);
    }
    if g.count == 1 {
      assert Namers(threads - {id}, r) == {};
      forall x | x in threads - {id}
        ensures threads[x].prog != r
      {
        assert x !in Namers(threads - {id}, r);
      }
    }
  }

  lemma PlacesDrop(threads: map<nat, Thread>, run: seq<nat>, dead: seq<nat>, curr: nat, nextId: nat)
    requires PlacesOk(threads, run, dead, curr, nextId) && dead != []
    ensures PlacesOk(threads - {dead[0]}, run, dead[1..], curr, nextId)
  {
    assert dead == [dead[0]] + dead[1..];
    assert dead[0] in dead;
    assert forall x :: x in dead <==> x == dead[0] || x in dead[1..];
    assert dead[0] !in dead[1..];
  }

  /** rc_free gives back at most the region's own block. */
  lemma UnrefOwns(s: Sys, r: nat)
    requires OwnsOk(s.pages, Owned(s.threads, s.regions)) && r in s.regions && s.regions[r].count > 0
    ensures s.pages.Sized() && s.regions[r].mem < |s.pages.status|
    ensures var u := Unref(s, r);
            && OwnsOk(u.pages, Owned(u.threads, u.regions)) && |u.pages.status| == |s.pages.status|
            && Foreign(u.pages, Owned(u.threads, u.regions)) == Foreign(s.pages, Owned(s.threads, s.regions))
  {
    hide OwnsOk, Foreign, Owned, B.FreeAt, Valid;
    OwnedDropRegion(s.threads, s.regions, r);
    OwnGive(s.pages, Owned(s.threads, s.regions), Program(r));
    var u := Unref(s, r);
    if s.regions[r].count > 1 {
      OwnedSame(s.threads, s.regions, u.threads, u.regions);
    }
  }

  /** The stacks of one thread go back, and nothing else. */
  lemma FreeStacksOwns(s: Sys, id: nat)
    requires OwnsOk(s.pages, Owned(s.threads, s.regions)) && StacksOk(s.threads) && id in s.threads && s.dead != []
    ensures s.pages.Sized() && MaskedPage(s.threads[id].usp, USER_STACK_SIZE) < |s.pages.status|
    ensures MaskedPage(s.threads[id].ksp, KERNEL_STACK_SIZE) < |s.pages.status|
    ensures var f := FreeStacks(s, id);
            && OwnsOk(f.pages, Owned(f.threads, f.regions)) && |f.pages.status| == |s.pages.status|
            && Foreign(f.pages, Owned(f.threads, f.regions)) == Foreign(s.pages, Owned(s.threads, s.regions))
  {
    hide OwnsOk, Foreign, Owned, B.FreeAt, Valid;
    StacksFound(s, id);
    var own := Owned(s.threads, s.regions);
    OwnedDropThread(s.threads, s.regions, id);
    OwnGive(s.pages, own, UserStack(id));
    OwnGive(B.FreeAt(s.pages, s.threads[id].ustack), own - {UserStack(id)}, KernelStack(id));
  }

  /** Reaping one thread gives back just its stacks, and its region exactly when no other unreaped
      thread names it. */
  lemma ReapOneKeeps(s: Sys)
    requires Inv(s) && s.dead != []
    ensures Keeps(s, ReapOne(s)) && ReapOne(s).dead == s.dead[1..]
    ensures s.dead[0] in s.threads
    ensures var r := s.threads[s.dead[0]].prog;
            r in ReapOne(s).regions <==> exists id :: id in s.threads && id != s.dead[0] && s.threads[id].prog == r
  {
    hide OwnsOk, Foreign, Owned, B.FreeAt, CountsOk, PlacesOk, Valid, NoDup;
    ReapReady(s);
    var id := s.dead[0];
    var t := s.threads[id];
    UnrefOwns(s, t.prog);
    FreeStacksOwns(Unref(s, t.prog), id);
    CountsDrop(s.threads, s.regions, s.nextRegion, id);
    PlacesDrop(s.threads, s.run, s.dead, s.curr, s.nextId);
    LastNamer(s.threads, s.regions, s.nextRegion, id);
  }

  lemma LastNamer(threads: map<nat, Thread>, regions: map<nat, Region>, n: nat, id: nat)
    requires CountsOk(threads, regions, n) && id in threads
    ensures var r := threads[id].prog;
            r in regions && (regions[r].count > 1 <==> exists x :: x in threads && x != id && threads[x].prog == r)
  {
    var r := threads[id].prog;
    var ns := Namers(threads, r);
    assert id in ns;
    if x :| x in threads && x != id && threads[x].prog == r {
      assert {id, x} <= ns;
      CardTwo(ns, id, x);
    } else {
      assert ns == {id};
    }
  }

  lemma CardTwo(ns: set<nat>, a: nat, b: nat)
    requires a in ns && b in ns && a != b
    ensures |ns| >= 2
  {
    assert |ns - {a} - {b}| == |ns| - 2;
  }

  // ----- exec -----

  lemma RegionReady(s: Sys, id: nat)
    requires OwnsOk(s.pages, Owned(s.threads, s.regions))
             && CountsOk(s.threads, s.regions, s.nextRegion) && id in s.threads
    ensures var r := s.threads[id].prog;
            && r in s.regions && s.regions[r].count > 0 && s.pages.Sized() && s.regions[r].mem < |s.pages.status|
  {
    hide TakenBlocks, Valid;
    var r := s.threads[id].prog;
    OwnedDropRegion(s.threads, s.regions, r);
    TakenFacts(s.pages, Owned(s.threads, s.regions)[Program(r)]);
  }

  /** A user thread runs, and there are pages for the new program. */
  ghost predicate CanExec(s: Sys, order: nat) {
    Inv(s) && s.curr in s.threads && (RegionReady(s, s.curr); CanTake(Unref(s, s.threads[s.curr].prog).pages, order))
  }

  /** exec_s, as its text has it: the current thread's region is let go and another is loaded, but
      the thread is not made to name it. */
  ghost function Exec(s: Sys, order: nat): Sys
    requires CanExec(s, order)
  {
    RegionReady(s, s.curr);
    NewRegion(Unref(s, s.threads[s.curr].prog), order)
  }

  /** So after exec_s the counts are never right: the new region has no thread that names it; and if
      the old one had no other thread, it is gone while the current thread still names it. */
  lemma ExecMiscounts(s: Sys, order: nat)
    requires CanExec(s, order)
    ensures var e := Exec(s, order); var r := s.threads[s.curr].prog;
            && !CountsOk(e.threads, e.regions, e.nextRegion)
            && s.nextRegion in e.regions && e.regions[s.nextRegion].count == 1 && Namers(e.threads, s.nextRegion) == {}
            && e.threads[s.curr].prog == r
            && e == s.(pages := e.pages, regions := e.regions, nextRegion := s.nextRegion + 1)
            && (forall q :: q in s.regions && q != r ==> q in e.regions && e.regions[q] == s.regions[q])
            && (r in e.regions <==> exists id :: id in s.threads && id != s.curr && s.threads[id].prog == r)
  {
    hide OwnsOk, PlacesOk, StacksOk, Take, CanTake, B.FreeAt;
    RegionReady(s, s.curr);
    var e := Exec(s, order);
    assert Namers(e.threads, s.nextRegion) == {};
    LastNamer(s.threads, s.regions, s.nextRegion, s.curr);
  }

  // ----- runs -----

  datatype Step =
    | Spawning(order: nat)            // run_prog: load a program and start a thread on it
    | Forking(usp: nat, ksp: nat)     // fork_s
    | Running(usp: nat, ksp: nat)     // the current thread's stack pointers move
    | Scheduling                      // schedule
    | Killing(pid: nat)               // kill_s, exit_s
    | Reaping                         // one round of kill_zombies

  ghost predicate Allowed(s: Sys, e: Step)
    requires Inv(s)
  {
    match e
    case Spawning(order) => CanSpawn(s, order)
    case Forking(usp, ksp) => CanFork(s, usp, ksp)
    case Running(usp, ksp) =>
      s.curr in s.threads && Inside(usp, s.threads[s.curr].ustack, USER_STACK_SIZE)
      && Inside(ksp, s.threads[s.curr].kstack, KERNEL_STACK_SIZE)
    case Scheduling => true
    case Killing(pid) => pid == s.curr ==> s.curr in s.threads
    case Reaping => s.dead != []
  }

  ghost function Next(s: Sys, e: Step): Sys
    requires Inv(s) && Allowed(s, e)
  {
    match e
    case Spawning(order) => Spawn(s, order)
    case Forking(usp, ksp) => Fork(s, usp, ksp)
    case Running(usp, ksp) => MoveSp(s, usp, ksp)
    case Scheduling => Schedule(s)
    case Killing(pid) => Kill(s, pid)
    case Reaping => ReapOne(s)
  }

  lemma NextKeeps(s: Sys, e: Step)
    requires Inv(s) && Allowed(s, e)
    ensures Keeps(s, Next(s, e))
  {
    hide OwnsOk, Foreign, Owned, CountsOk, PlacesOk, StacksOk, Fork, Spawn, ReapOne, Kill, Schedule, MoveSp, NoDup;
    CurrAlive(s);
    match e {
      case Spawning(order) => SpawnKeeps(s, order);
      case Forking(usp, ksp) => ForkKeeps(s, usp, ksp);
      case Running(usp, ksp) => MoveSpKeeps(s, usp, ksp);
      case Scheduling => ScheduleKeeps(s);
      case Killing(pid) => KillKeeps(s, pid);
      case Reaping => ReapOneKeeps(s);
    }
  }

  /** The system as it boots: no thread of this kind, nothing queued. */
  lemma Boot(pages: Pages)
    requires Valid(pages)
    ensures var s := Sys(pages, map[], map[], [], [], 1, 2, 0);
            Inv(s) && Foreign(s.pages, Owned(s.threads, s.regions)) == TakenBlocks(pages)
  {
    assert Owned(map[], map[]) == map[];
  }

  ghost predicate Runs(s: Sys, steps: seq<Step>, e: Sys)
    requires Inv(s)
    decreases |steps|
  {
    if steps == [] then s == e
    else Allowed(s, steps[0]) && (NextKeeps(s, steps[0]); Runs(Next(s, steps[0]), steps[1..], e))
  }

  /** Over every run: each unreaped thread is in exactly one of current, run queue and dead queue;
      each region counts the unreaped threads that name it; all stacks and regions are separate
      allocated blocks; and no block of anybody else is ever touched. */
  lemma {:induction false} RunsKeep(s: Sys, steps: seq<Step>, e: Sys)
    requires Inv(s) && Runs(s, steps, e)
    ensures Keeps(s, e)
    decreases |steps|
  {
    hide OwnsOk, Foreign, Owned, CountsOk, PlacesOk, StacksOk, Next, Allowed;
    if steps != [] {
      NextKeeps(s, steps[0]);
      RunsKeep(Next(s, steps[0]), steps[1..], e);
    }
  }

  /** In particular page 0 is never free once a block of nobody here covers it. */
  lemma ZeroStays(s: Sys, e: Sys, b: Block)
    requires Inv(s) && Keeps(s, e) && b in Foreign(s.pages, Owned(s.threads, s.regions)) && b.head == 0
    ensures 0 < |e.pages.status| && !FreePage(e.pages, 0)
  {
    assert b in TakenBlocks(e.pages);
    TakenCovers(e.pages, b, 0);
  }

  /** Once all threads are reaped, the allocator has back everything but the blocks of others. */
  lemma {:induction false} RunsReturnAll(s: Sys, steps: seq<Step>, e: Sys)
    requires Inv(s) && Runs(s, steps, e) && e.threads == map[]
    ensures Valid(e.pages) && e.regions == map[]
            && TakenBlocks(e.pages) == Foreign(s.pages, Owned(s.threads, s.regions))
  {
    hide Runs, Owned, Foreign, Valid;
    RunsKeep(s, steps, e);
    AllReaped(e);
  }

  lemma AllReaped(s: Sys)
    requires Inv(s)
    ensures s.threads == map[] ==>
              s.regions == map[] && TakenBlocks(s.pages) == Foreign(s.pages, Owned(s.threads, s.regions))
  {
    if s.threads == map[] {
      forall r: nat
        ensures |Namers(s.threads, r)| == 0
      {
        assert Namers(s.threads, r) == {};
      }
      assert s.regions.Keys == {};
      assert Owned(s.threads, s.regions) == map[];
    }
  }
}
