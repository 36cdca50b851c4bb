/** What each call of the thread system does, in its caller's terms: who runs next, who dies, what a
    new thread starts with, and what a dead one gives back. */
module ThreadCalls {
  import opened Machine
  import opened LinkedNodes
  import opened BuddyTheory
  import opened BuddyState
  import opened Threads
  import B = BuddyOps

  // ----- schedule -----

  /** The thread at the front of the run queue runs next, and a living user thread that leaves the
      processor goes behind all others; with an empty run queue it goes on, and the idle thread runs
      where there is none.  Nothing else changes. */
  lemma ScheduleExact(s: Sys)
    requires Threads.Inv(s)
    ensures var e := Schedule(s);
            && e == s.(run := e.run, curr := e.curr)
            && (s.run != [] ==> e.curr == s.run[0] && e.run == s.run[1..] + (if s.curr > 1 then [s.curr] else []))
            && (s.run == [] ==> e.run == [] && e.curr == if s.curr > 1 then s.curr else IDLE)
  {
    hide OwnsOk, CountsOk, StacksOk, Owned, NoDup;
    CurrAlive(s);
    if s.curr > 1 && s.run != [] {
      assert (s.run + [s.curr])[1..] == s.run[1..] + [s.curr];
    }
  }

  /** n calls of schedule, and nothing else. */
  function Turns(s: Sys, n: nat): Sys {
    if n == 0 then s else Schedule(Turns(s, n - 1))
  }

  lemma {:induction false} TurnsKeep(s: Sys, n: nat)
    requires Threads.Inv(s)
    ensures Threads.Inv(Turns(s, n))
  {
    hide Threads.Inv, Schedule, Foreign;
    if n > 0 {
      TurnsKeep(s, n - 1);
      ScheduleKeeps(Turns(s, n - 1));
    }
  }

  /** Round robin: the thread at position i of the run queue has the processor after i + 1 calls, with
      those behind it still in their order, followed by those that have had their turn. */
  lemma {:induction false} RoundRobin(s: Sys, i: nat)
    requires Threads.Inv(s) && i < |s.run|
    ensures var e := Turns(s, i + 1); var gone := if s.curr > 1 then [s.curr] else [];
            e.curr == s.run[i] && e.run == s.run[i + 1..] + gone + s.run[..i] && e == s.(run := e.run, curr := e.curr)
  {
    hide Threads.Inv, Schedule;
    TurnsKeep(s, i);
    var m := Turns(s, i);
    ScheduleExact(m);
    UserIds(s);
    if i > 0 {
      RoundRobin(s, i - 1);
      assert s.run[i..][0] == s.run[i] && s.run[i..][1..] == s.run[i + 1..];
      assert s.run[..i - 1] + [s.run[i - 1]] == s.run[..i];
    } else {
      assert Turns(s, 0) == s && s.run[..0] == [];
    }
  }

  /** Only user threads are queued. */
  lemma UserIds(s: Sys)
    requires Threads.Inv(s)
    ensures forall i :: 0 <= i < |s.run| ==> s.run[i] > 1
  {
    hide OwnsOk, CountsOk, StacksOk, Owned, NoDup;
    forall i | 0 <= i < |s.run|
      ensures s.run[i] > 1
    {
      assert s.run[i] in s.run;
    }
  }

  /** After as many calls as there are threads that can run, everything is as it was. */
  lemma FullCircle(s: Sys)
    requires Threads.Inv(s) && s.curr > 1
    ensures Turns(s, |s.run| + 1) == s
  {
    hide Threads.Inv, Schedule;
    var n := |s.run|;
    TurnsKeep(s, n);
    ScheduleExact(Turns(s, n));
    if n > 0 {
      UserIds(s);
      RoundRobin(s, n - 1);
      assert s.run[..n - 1] + [s.run[n - 1]] == s.run && s.run[n..] == [];
    } else {
      assert Turns(s, 0) == s;
    }
  }

  // ----- kill -----

  /** The thread of the id dies, and it alone: it goes to the end of the dead queue, keeps everything
      but its life, and leaves the others where they are.  An id that is neither the current thread's
      nor in the run queue changes nothing. */
  lemma KillExact(s: Sys, pid: nat)
    requires Threads.Inv(s) && (pid == s.curr ==> s.curr > 1)
    ensures pid == s.curr ==> s.curr in s.threads
    ensures forall id :: id in s.run ==> id in s.threads
    ensures var e := Kill(s, pid);
            if pid == s.curr || pid in s.run then
              && pid in s.threads && e.threads.Keys == s.threads.Keys
              && e.threads[pid] == s.threads[pid].(alive := false)
              && (forall id :: id in s.threads && id != pid ==> e.threads[id] == s.threads[id])
              && e.dead == s.dead + [pid]
              && e == s.(threads := e.threads, dead := e.dead, run := e.run, curr := e.curr)
            else e == s
    ensures var e := Kill(s, pid);
            && (pid == s.curr && s.run != [] ==> e.curr == s.run[0] && e.run == s.run[1..])
            && (pid == s.curr && s.run == [] ==> e.curr == IDLE && e.run == [])
            && (pid != s.curr ==> e.curr == s.curr && LeftOut(s.run, pid, e.run))
  {
    hide OwnsOk, CountsOk, StacksOk, Owned, NoDup, Without;
    CurrAlive(s);
    if pid != s.curr && pid in s.run { WithoutCuts(s.run, pid); }
    if pid != s.curr && pid !in s.run { assert s.run[..] == s.run; }
  }

  /** ys is xs without the one place where x is, in the same order. */
  ghost predicate LeftOut(xs: seq<nat>, x: nat, ys: seq<nat>) {
    if x in xs then exists k: nat :: CutAt(xs, x, ys, k) else ys == xs
  }

  // ----- new threads -----

  /** A stack is empty: the pointer is the last address in it that is a multiple of 16, as the
      processor asks of a stack pointer. */
  ghost predicate EmptyStack(sp: nat, page: nat, size: nat) {
    sp % 16 == 0 && Inside(sp, page, size) && forall a: nat :: Inside(a, page, size) && a % 16 == 0 ==> a <= sp
  }

  /** All that is pushed on an empty stack, up to its size less 16 bytes, goes into its own block. */
  lemma PushesFit(sp: nat, page: nat, size: nat, n: nat)
    requires EmptyStack(sp, page, size) && size % 16 == 0 && n + 16 <= size
    ensures n <= sp && Inside(sp - n, page, size) && Inside(sp + 15, page, size)
  {
    var end := page * PAGE_SIZE + size;
    EndOfBlock(page, size);
    NextSixteen(sp, end);
    assert Inside(end - 16, page, size);
  }

  lemma TopOfStack(page: nat, size: nat)
    requires size % 16 == 0 && size >= 16
    ensures EmptyStack(page * PAGE_SIZE + size - 16, page, size)
  {
    var end := page * PAGE_SIZE + size;
    EndOfBlock(page, size);
    forall a: nat | Inside(a, page, size) && a % 16 == 0
      ensures a <= end - 16
    {
      NextSixteen(a, end);
    }
    NextSixteen(end - 16, end);
  }

  lemma EndOfBlock(page: nat, size: nat)
    requires size % 16 == 0
    ensures (page * PAGE_SIZE + size) % 16 == 0
  {
    assert page * PAGE_SIZE == 16 * (page * 256);
  }

  lemma NextSixteen(a: nat, end: nat)
    requires end % 16 == 0 && a < end
    ensures a % 16 == 0 ==> a <= end - 16
    ensures end >= 16 && (end - 16) % 16 == 0
  {
    assert end == 16 * (end / 16) && a == 16 * (a / 16) + a % 16;
  }

  /** The blocks of a thread's stacks. */
  function StackBlocks(t: Thread): set<Block> {
    {Block(t.ustack, USER_ORDER, OCCUPIED), Block(t.kstack, KERNEL_ORDER, OCCUPIED)}
  }

  /** A new thread waits behind all others, with empty stacks in two blocks that were free; nothing
      else changes. */
  lemma NewThread(s: Sys, prog: nat)
    requires StacksAvailable(s.pages)
    ensures var e := MakeThread(s, prog); var id := s.nextId;
            && id in e.threads && e.threads == s.threads[id := e.threads[id]]
            && e == s.(pages := e.pages, threads := e.threads, run := s.run + [id], nextId := id + 1)
            && var t := e.threads[id];
               && t.prog == prog && t.alive
               && EmptyStack(t.usp, t.ustack, USER_STACK_SIZE) && EmptyStack(t.ksp, t.kstack, KERNEL_STACK_SIZE)
               && Valid(e.pages) && TakenBlocks(e.pages) == TakenBlocks(s.pages) + StackBlocks(t)
               && t.ustack != t.kstack
               && forall b :: b in TakenBlocks(s.pages) ==> b.head != t.ustack && b.head != t.kstack
  {
    hide Threads.Take, CanTake, TakenBlocks, Valid, EmptyStack;
    TakeIs(s.pages, USER_ORDER);
    var (p, u) := Threads.Take(s.pages, USER_ORDER);
    TakeIs(p, KERNEL_ORDER);
    var k := Threads.Take(p, KERNEL_ORDER).1;
    TopOfStack(u, USER_STACK_SIZE);
    TopOfStack(k, KERNEL_STACK_SIZE);
    assert Block(u, USER_ORDER, OCCUPIED) in TakenBlocks(p);
  }

  /** run_prog without its schedule: nothing, when the region's pages cannot be had; else a region of
      the order asked for, in a block that was free, counted once, and a new thread on it. */
  lemma SpawnExact(s: Sys, order: nat)
    requires Valid(s.pages) && CanSpawn(s, order)
    ensures !CanTake(s.pages, order) ==> Spawn(s, order) == s
    ensures CanTake(s.pages, order) ==>
              var e := Spawn(s, order); var r, id := s.nextRegion, s.nextId;
              && r in e.regions && e.regions == s.regions[r := e.regions[r]] && id in e.threads
              && e.threads == s.threads[id := e.threads[id]]
              && e == s.(pages := e.pages, threads := e.threads, regions := e.regions, run := s.run + [id],
                         nextId := id + 1, nextRegion := r + 1)
              && var g, t := e.regions[r], e.threads[id];
                 && g.count == 1 && g.order == order && t.prog == r && t.alive
                 && EmptyStack(t.usp, t.ustack, USER_STACK_SIZE) && EmptyStack(t.ksp, t.kstack, KERNEL_STACK_SIZE)
                 && Valid(e.pages)
                 && TakenBlocks(e.pages) == TakenBlocks(s.pages) + {Block(g.mem, order, OCCUPIED)} + StackBlocks(t)
                 && (forall b :: b in TakenBlocks(s.pages) ==> b.head != g.mem)
  {
    hide Threads.Take, CanTake, TakenBlocks, Valid, EmptyStack, StacksAvailable, FreePage;
    if CanTake(s.pages, order) {
      TakeIs(s.pages, order);
      NewThread(NewRegion(s, order), s.nextRegion);
    }
  }

  /** fork_s: the child waits behind all others, on the parent's region, which counts it; its stack
      pointers are as far into its own stacks as the parent's are into the parent's; and the parent
      goes on. */
  lemma ForkExact(s: Sys, usp: nat, ksp: nat)
    requires Threads.Inv(s) && CanFork(s, usp, ksp)
    ensures var e := Fork(s, usp, ksp); var id := s.nextId; var p := s.threads[s.curr]; var g := s.regions[p.prog];
            && id in e.threads && e.threads == s.threads[id := e.threads[id]] && e.curr == s.curr
            && e.regions == s.regions[p.prog := g.(count := g.count + 1)]
            && e == s.(pages := e.pages, threads := e.threads, regions := e.regions, run := s.run + [id],
                       nextId := id + 1)
            && var c := e.threads[id];
               && c.prog == p.prog && c.alive
               && c.usp - c.ustack * PAGE_SIZE == usp - p.ustack * PAGE_SIZE
               && c.ksp - c.kstack * PAGE_SIZE == ksp - p.kstack * PAGE_SIZE
               && Inside(c.usp, c.ustack, USER_STACK_SIZE) && Inside(c.ksp, c.kstack, KERNEL_STACK_SIZE)
               && Valid(e.pages) && TakenBlocks(e.pages) == TakenBlocks(s.pages) + StackBlocks(c)
               && forall b :: b in TakenBlocks(s.pages) ==> b.head != c.ustack && b.head != c.kstack
  {
    hide MakeThread, TakenBlocks, Valid, EmptyStack, StacksAvailable;
    NewThread(s, s.threads[s.curr].prog);
  }

  // ----- reaping -----

  /** The blocks that go with a thread: its stacks, and its region's if no other thread names that. */
  ghost function LastBlocks(s: Sys, id: nat): set<Block>
    requires id in s.threads && s.threads[id].prog in s.regions
  {
    var t := s.threads[id];
    var g := s.regions[t.prog];
    StackBlocks(t) + if g.count == 1 then {Block(g.mem, g.order, OCCUPIED)} else {}
  }

  /** One round of kill_zombies takes the thread that died first: its blocks and no others go back, its
      region counts one less or goes, and nothing else changes. */
  lemma ReapExact(s: Sys)
    requires Threads.Inv(s) && s.dead != []
    ensures s.dead[0] in s.threads && s.threads[s.dead[0]].prog in s.regions
    ensures var e := ReapOne(s); var id := s.dead[0]; var r := s.threads[id].prog; var g := s.regions[r];
            && e == s.(pages := e.pages, threads := s.threads - {id}, regions := e.regions, dead := s.dead[1..])
            && e.regions == (if g.count == 1 then s.regions - {r} else s.regions[r := g.(count := g.count - 1)])
            && (g.count == 1 <==> forall x :: x in s.threads && s.threads[x].prog == r ==> x == id)
            && Valid(e.pages) && TakenBlocks(e.pages) == TakenBlocks(s.pages) - LastBlocks(s, id)
  {
    hide OwnsOk, CountsOk, PlacesOk, StacksOk, Owned, TakenBlocks, Valid, B.FreeAt;
    ReapReady(s);
    var id := s.dead[0];
    var t := s.threads[id];
    var g := s.regions[t.prog];
    var u, k := Block(t.ustack, USER_ORDER, OCCUPIED), Block(t.kstack, KERNEL_ORDER, OCCUPIED);
    LastNamer(s.threads, s.regions, s.nextRegion, id);
    OwnBlocks(s, id);
    var p := s.pages;
    if g.count == 1 {
      GiveBack(p, Block(g.mem, g.order, OCCUPIED));
      p := B.FreeAt(p, g.mem);
    }
    GiveBack(p, u);
    GiveBack(B.FreeAt(p, t.ustack), k);
  }

  lemma GiveBack(pages: Pages, b: Block)
    requires Valid(pages) && b in TakenBlocks(pages) && b.kind == OCCUPIED
    ensures pages.Sized() && b.head < |pages.status|
    ensures var p := B.FreeAt(pages, b.head); Valid(p) && TakenBlocks(p) == TakenBlocks(pages) - {b}
  {
    hide B.FreeAt, Held, Ord;
    TakenFacts(pages, b);
    B.FreeTheorem(pages, b.head);
  }

  /** A thread's blocks are three. */
  lemma OwnBlocks(s: Sys, id: nat)
    requires Threads.Inv(s) && id in s.threads
    ensures Valid(s.pages) && s.threads[id].prog in s.regions
    ensures var t := s.threads[id]; var g := s.regions[t.prog];
            var u, k, m := Block(t.ustack, USER_ORDER, OCCUPIED), Block(t.kstack, KERNEL_ORDER, OCCUPIED),
                           Block(g.mem, g.order, OCCUPIED);
            && u in TakenBlocks(s.pages) && k in TakenBlocks(s.pages) && m in TakenBlocks(s.pages)
            && u != k && u != m && k != m
  {
    hide TakenBlocks, Valid, PlacesOk, StacksOk;
    var own := Owned(s.threads, s.regions);
    OwnedDropThread(s.threads, s.regions, id);
    OwnedDropRegion(s.threads, s.regions, s.threads[id].prog);
  }

  /** kill_zombies: every dead thread is gone afterwards, and no other has changed. */
  lemma {:induction false} ReapAllExact(s: Sys)
    requires Threads.Inv(s)
    ensures var e := ReapAll(s);
            && e.dead == [] && e.run == s.run && e.curr == s.curr && e.nextId == s.nextId
            && (forall id :: id in e.threads <==> id in s.threads && id !in s.dead)
            && (forall id :: id in e.threads ==> e.threads[id] == s.threads[id])
            && forall r :: r in e.regions <==> exists id :: id in e.threads && e.threads[id].prog == r
    decreases |s.dead|
  {
    hide Threads.Inv, ReapOne, Keeps, Foreign;
    KeepsInv(s, ReapAll(s));
    RegionsNamed(ReapAll(s));
    if s.dead != [] {
      ReapExact(s);
      ReapOneKeeps(s);
      KeepsInv(s, ReapOne(s));
      ReapAllExact(ReapOne(s));
      assert s.dead == [s.dead[0]] + s.dead[1..];
    }
  }

  lemma KeepsInv(s: Sys, e: Sys)
    requires Threads.Inv(s) && Keeps(s, e)
    ensures Threads.Inv(e)
  {
  }

  /** Regions are there exactly while a thread names them. */
  lemma RegionsNamed(s: Sys)
    requires Threads.Inv(s)
    ensures forall r :: r in s.regions <==> exists id :: id in s.threads && s.threads[id].prog == r
  {
    hide OwnsOk, PlacesOk, StacksOk, Owned;
    forall r | r in s.regions
      ensures exists id :: id in s.threads && s.threads[id].prog == r
    {
      var ns := Namers(s.threads, r);
      assert |ns| > 0;
      var id :| id in ns;
    }
  }

  // ----- regions -----

  /** rc_alloc with its pages: a region that counts one, in a block of the order that was free. */
  lemma RegionExact(s: Sys, order: nat)
    requires CanTake(s.pages, order)
    ensures var e := NewRegion(s, order); var r := s.nextRegion;
            && r in e.regions && e.regions == s.regions[r := e.regions[r]]
            && e == s.(pages := e.pages, regions := e.regions, nextRegion := r + 1)
            && var g := e.regions[r];
               && g.count == 1 && g.order == order && Valid(e.pages)
               && TakenBlocks(e.pages) == TakenBlocks(s.pages) + {Block(g.mem, order, OCCUPIED)}
               && forall b :: b in TakenBlocks(s.pages) ==> b.head != g.mem
  {
    hide Threads.Take, CanTake, TakenBlocks, Valid;
    TakeIs(s.pages, order);
  }

  /** rc_free: one name less; with the last one the region goes, and just its block is given back. */
  lemma UnrefExact(s: Sys, r: nat)
    requires OwnsOk(s.pages, Owned(s.threads, s.regions)) && r in s.regions && s.regions[r].count > 0
    ensures s.pages.Sized() && s.regions[r].mem < |s.pages.status|
    ensures var e := Unref(s, r); var g := s.regions[r];
            if g.count > 1 then e == s.(regions := s.regions[r := g.(count := g.count - 1)])
            else e == s.(pages := e.pages, regions := s.regions - {r}) && Valid(e.pages)
                 && TakenBlocks(e.pages) == TakenBlocks(s.pages) - {Block(g.mem, g.order, OCCUPIED)}
  {
    hide TakenBlocks, Valid, B.FreeAt;
    OwnedDropRegion(s.threads, s.regions, r);
    var g := s.regions[r];
    GiveBack(s.pages, Block(g.mem, g.order, OCCUPIED));
  }
}
