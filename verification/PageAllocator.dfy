/** lib/allocator/page_allocator.c over its arrays: the status words, the intrusive nodes and
    the heads of the free lists are overwritten in place, by the loops of the source. */
module PageAllocator {
  import opened Machine
  import opened Bits
  import opened LinkedNodes
  import opened BuddyState
  import opened BuddyTheory
  import opened BuddyOps
  import opened BuddyReserve
  import opened Segmentation

  const TWO_64: nat := 0x1_0000_0000_0000_0000
  const MAX_TOP: nat := 19

  /** The number of binary digits. */
  function BitLength(x: nat): nat {
    if x == 0 then 0 else 1 + BitLength(x / 2)
  }

  /** What calculate_order counts the digits of: whole pages less one, in 32-bit arithmetic. */
  function PagesLessOne(size: nat): nat {
    ((size + PAGE_SIZE - 1) % WORD / PAGE_SIZE + WORD - 1) % WORD
  }

  function OrderFor(size: nat): nat {
    BitLength(PagesLessOne(size))
  }

  lemma {:induction false} BitLengthLe(x: nat, k: nat)
    ensures BitLength(x) <= k <==> x < Pow2(k)
  {
    if x > 0 && k > 0 {
      BitLengthLe(x / 2, k - 1);
    }
  }

  lemma Pow2Values()
    ensures Pow2(19) == 524288
  {
    assert Pow2(4) == 16;
    assert Pow2(8) == 256;
    assert Pow2(12) == 4096;
    assert Pow2(16) == 65536;
  }

  /** For every non-zero 32-bit size, even where the rounding wraps around, the order is the
      least one whose block covers the size, as far as orders up to 19 go. */
  lemma OrderForLeast(size: nat, k: nat)
    requires 0 < size < WORD && k <= MAX_TOP
    ensures OrderFor(size) <= k <==> size <= Pow2(k) * PAGE_SIZE
  {
    BitLengthLe(PagesLessOne(size), k);
    Pow2Mono(k, MAX_TOP);
    Pow2Values();
    PagesLessOneIs(size, Pow2(k));
  }

  lemma PagesLessOneIs(size: nat, pages: nat)
    requires 0 < size < WORD && 0 < pages <= 524288
    ensures PagesLessOne(size) < pages <==> size <= pages * PAGE_SIZE
  {
    var up := size + PAGE_SIZE - 1;
    if up < WORD {
      var q := up / PAGE_SIZE;
      assert 1 <= q < WORD;
      assert (q + WORD - 1) % WORD == q - 1;
    } else {
      assert up % WORD == up - WORD < PAGE_SIZE;
      assert PagesLessOne(size) == WORD - 1;
    }
  }

  /** page_alloc in bytes: it fails exactly when no aligned run of free pages is as large as was
      asked for, and else hands out the smallest kind of block that is. */
  lemma AllocForSize(a: Pages, size: nat)
    requires BuddyTheory.Valid(a) && a.Top() <= MAX_TOP && 0 < size < WORD
    ensures var k := OrderFor(size); var got := AllocOrder(a, k).1;
            && (got.None? <==> forall b: nat, j: nat :: j <= a.Top() && FreeRun(a, b, j) ==> Pow2(j) * PAGE_SIZE < size)
            && (got.Some? ==> FreeRun(a, got.value, k) && size <= Pow2(k) * PAGE_SIZE
                              && (k > 0 ==> Pow2(k - 1) * PAGE_SIZE < size))
  {
    hide OrderFor, AllocOrder, FreePage;
    var k := OrderFor(size);
    var got := AllocOrder(a, k).1;
    AllocTheorem(a, k);
    if got.Some? {
      OrderForLeast(size, k);
      if k > 0 { OrderForLeast(size, k - 1); }
      assert FreeRun(a, got.value, k) && k <= a.Top();
    } else {
      forall b: nat, j: nat | j <= a.Top() && FreeRun(a, b, j)
        ensures Pow2(j) * PAGE_SIZE < size
      {
        OrderForLeast(size, j);
        if k <= j { SmallerRun(a, b, k, j); }
      }
    }
  }

  lemma SmallerRun(a: Pages, b: nat, k: nat, j: nat)
    requires BuddyTheory.Valid(a) && k <= j && FreeRun(a, b, j)
    ensures FreeRun(a, b, k)
  {
    AlignedDown(b, k, j);
    Pow2Mono(k, j);
  }

  /** to_block_idx: an address beyond the end of memory is reported and becomes page 0. */
  function ToBlockIdx(addr: nat, memSize: nat): (p: nat)
    ensures addr <= memSize ==> p * PAGE_SIZE <= addr < (p + 1) * PAGE_SIZE
    ensures addr > memSize ==> p == 0
  {
    if addr > memSize then 0 else addr / PAGE_SIZE
  }

  /** The first and last page that memory_reserve covers, in 64-bit arithmetic. */
  function FirstPage(start: nat, memSize: nat): nat {
    ToBlockIdx(start / PAGE_SIZE * PAGE_SIZE, memSize)
  }

  function LastPage(start: nat, size: nat, memSize: nat): nat {
    ToBlockIdx(((start + size + TWO_64 - 1) % TWO_64) / PAGE_SIZE * PAGE_SIZE, memSize)
  }

  /** A page with a byte of a region in it. */
  ghost predicate Touches(start: nat, size: nat, p: nat) {
    exists b: nat :: start <= b < start + size && InPage(b, p)
  }

  predicate InPage(b: nat, p: nat) {
    b / PAGE_SIZE == p
  }

  /** For a region inside the memory the pages are those that have one of its bytes. */
  lemma RegionPages(start: nat, size: nat, memSize: nat)
    requires 0 < size && start + size <= memSize <= TWO_64
    ensures var first, last := FirstPage(start, memSize), LastPage(start, size, memSize);
            first <= last && forall p: nat :: first <= p <= last <==> Touches(start, size, p)
  {
    var end := start + size - 1;
    assert (start + size + TWO_64 - 1) % TWO_64 == end by { Wraps(end); }
    PageOf(start);
    PageOf(end);
    var first, last := FirstPage(start, memSize), LastPage(start, size, memSize);
    assert first == start / PAGE_SIZE && last == end / PAGE_SIZE;
    Quotients(start, end);
    forall p: nat
      ensures first <= p <= last <==> Touches(start, size, p)
    {
      if first <= p <= last {
        var b := if p == first then start else p * PAGE_SIZE;
        assert start <= b < start + size && InPage(b, p);
      }
      if b: nat :| start <= b < start + size && InPage(b, p) {
        Quotients(start, b);
        Quotients(b, end);
      }
    }
  }

  lemma Wraps(x: nat)
    requires x < TWO_64
    ensures (x + TWO_64) % TWO_64 == x
  {
  }

  lemma PageOf(a: nat)
    ensures a / PAGE_SIZE * PAGE_SIZE / PAGE_SIZE == a / PAGE_SIZE && a / PAGE_SIZE * PAGE_SIZE <= a
  {
  }

  lemma Quotients(a: nat, b: nat)
    requires a <= b
    ensures a / PAGE_SIZE <= b / PAGE_SIZE
  {
  }

  /** A region whose last page starts behind the end of memory is cut to its first page, if that is
      page 0, and otherwise left out altogether. */
  lemma RegionBeyond(start: nat, size: nat, memSize: nat)
    requires 0 < size && start + size <= TWO_64 && (start + size - 1) / PAGE_SIZE * PAGE_SIZE > memSize
    ensures LastPage(start, size, memSize) == 0
  {
    Wraps(start + size - 1);
  }

  /** The heads of top-order blocks below n, the last one first. */
  function HeadsBelow(n: nat, top: nat): (r: seq<nat>)
  {
    if n == 0 then []
    else if Aligned(n - 1, top) then [n - 1] + HeadsBelow(n - 1, top)
    else HeadsBelow(n - 1, top)
  }

  lemma {:induction false} HeadsBelowAre(n: nat, top: nat)
    ensures NoDup(HeadsBelow(n, top))
    ensures forall p: nat :: p in HeadsBelow(n, top) <==> p < n && Aligned(p, top)
  {
    if n > 0 {
      HeadsBelowAre(n - 1, top);
      if Aligned(n - 1, top) { NoDupPush(HeadsBelow(n - 1, top), n - 1); }
    }
  }

  predicate Descending(xs: seq<nat>) {
    forall i, j :: 0 <= i < j < |xs| ==> xs[i] > xs[j]
  }

  /** They are listed from the highest page down. */
  lemma {:induction false} HeadsDescend(n: nat, top: nat)
    ensures Descending(HeadsBelow(n, top))
  {
    if n > 0 {
      HeadsDescend(n - 1, top);
      HeadsBelowAre(n - 1, top);
      var rest := HeadsBelow(n - 1, top);
      forall i | 0 <= i < |rest|
        ensures rest[i] < n - 1
      {
        assert rest[i] in rest;
      }
    }
  }

  /** The status words and lists that init_page_array leaves behind. */
  function InitialState(n: nat, top: nat): Pages {
    Pages(seq(n, i requires 0 <= i < n => if i % Pow2(top) != 0 then GROUPED else top),
          seq(top + 1, k => if k == top then HeadsBelow(n, top) else []))
  }

  /** They are the coarsest partition: all pages free, in blocks of the top order. */
  lemma InitialValid(n: nat, top: nat)
    requires Aligned(n, top + 1)
    ensures Inv(InitialState(n, top), seq(n, i => top))
    ensures BuddyTheory.Valid(InitialState(n, top)) && TakenBlocks(InitialState(n, top)) == {}
    ensures Descending(InitialState(n, top).lists[top])
  {
    HeadsDescend(n, top);
    var a := InitialState(n, top);
    var ord := seq(n, i => top);
    forall p: nat | p < n
      ensures Marked(a.status, ord, p)
    {
      AlignedIsDivisible(p, top);
    }
    forall k: nat | k < |a.lists|
      ensures Listed(a, k, NULL)
    {
      HeadsBelowAre(n, top);
      forall p: nat
        ensures p in a.lists[k] <==> p < n && a.status[p] == k
      {
        if p < n { AlignedIsDivisible(p, top); }
      }
    }
    assert Inv(a, ord);
  }

  class Allocator {
    const status: array<int>
    const nodes: Nodes
    const freeList: array<int>
    ghost var lists: seq<seq<nat>>

    /** The nodes and list heads hold exactly the abstract lists. */
    ghost predicate Wired()
      reads this, nodes, nodes.prev, nodes.next, freeList
    {
      WiredTo(status.Length)
    }

    /** The same, when only the first m nodes are initialised. */
    ghost predicate WiredTo(m: nat)
      reads this, nodes, nodes.prev, nodes.next, freeList
      ensures WiredTo(m) ==>
                && |lists| == freeList.Length && m <= status.Length
                && status != freeList && status != nodes.prev && status != nodes.next
    {
      && nodes.Valid() && nodes.next.Length == status.Length && m <= status.Length
      && status != freeList && status != nodes.prev && status != nodes.next
      && freeList != nodes.prev && freeList != nodes.next
      && |lists| == freeList.Length
      && Holds(Cut(nodes.View(), m), lists)
      && forall k: nat :: k < |lists| ==> freeList[k] == At(lists[k], 0)
    }

    lemma WiredView()
      requires Wired()
      ensures Holds(nodes.View(), lists)
    {
      assert Cut(nodes.View(), status.Length) == nodes.View();
    }

    ghost function State(): Pages
      reads this, status
    {
      Pages(status[..], lists)
    }

    ghost predicate Valid()
      reads this, status, nodes, nodes.prev, nodes.next, freeList
    {
      Wired() && 0 < freeList.Length <= MAX_TOP + 1 && BuddyTheory.Valid(State())
    }

    /** MEM_SIZE */
    function MemSize(): nat {
      status.Length * PAGE_SIZE
    }

    // ----- the free lists -----

    /** free_list_insert */
    method FreeListInsert(p: nat, level: int, ghost m: nat)
      requires WiredTo(m) && p < m && level < freeList.Length && !On(lists, p)
      modifies this`lists, freeList, nodes.prev, nodes.next
      ensures WiredTo(m)
      ensures State() == if level < 0 then old(State()) else old(State()).Insert(p, level)
    {
      if level < 0 {
        return;
      }
      ghost var l := nodes.View();
      assert freeList[level] == At(lists[level], 0);
      PushFront(Cut(l, m), lists, level, p);
      CutAdd(l, m, p, NULL, freeList[level]);
      nodes.Add(p, NULL, freeList[level]);
      freeList[level] := p;
      lists := lists[level := [p] + lists[level]];
    }

    /** free_list_pop */
    method FreeListPop(level: nat) returns (p: nat)
      requires Wired() && level < freeList.Length && lists[level] != []
      modifies this`lists, freeList, nodes.prev, nodes.next
      ensures Wired() && p == old(lists[level][0])
      ensures State() == old(State()).(lists := old(lists)[level := old(lists[level])[1..]])
    {
      hide Holds, Without, RemoveLinks;
      WiredView();
      p := freeList[level];
      assert p == At(lists[level], 0);
      TakeOut(nodes.View(), lists, level, p);
      RemoveAny(nodes.View(), lists, level, p);
      WithoutAt(lists[level], 0);
      assert Without(lists[level], p) == lists[level][1..];
      var next := nodes.Remove(p);
      freeList[level] := next;
      lists := lists[level := lists[level][1..]];
      assert Cut(nodes.View(), status.Length) == nodes.View();
    }

    /** free_list_remove; the node may be unlinked already */
    method FreeListRemove(p: nat, level: nat)
      requires Wired() && p < status.Length && level < freeList.Length
      requires p in lists[level] || !On(lists, p)
      modifies this`lists, freeList, nodes.prev, nodes.next
      ensures Wired()
      ensures State() == old(State()).Remove(p, level)
    {
      hide Holds, Without, On, RemoveLinks;
      WiredView();
      ghost var xs := lists[level];
      RemoveAny(nodes.View(), lists, level, p);
      if freeList[level] == p {
        freeList[level] := nodes.next[p];
      }
      var _ := nodes.Remove(p);
      lists := lists[level := Without(xs, p)];
      assert Cut(nodes.View(), status.Length) == nodes.View();
    }

    // ----- init_page_array -----

    /** init_page_array */
    constructor (pages: nat, top: nat)
      requires Aligned(pages, top + 1) && top <= MAX_TOP
      ensures Valid() && State() == InitialState(pages, top)
      ensures fresh(status) && fresh(freeList) && fresh(nodes) && fresh(nodes.prev) && fresh(nodes.next)
    {
      status := new int[pages];
      nodes := new Nodes(pages);
      freeList := new int[top + 1];
      lists := seq(top + 1, _ => []);
      new;
      for i := 0 to freeList.Length
        invariant forall k :: 0 <= k < i ==> freeList[k] == NULL
        modifies freeList
      {
        freeList[i] := NULL;
      }
      InitBlocks(pages, top);
      InitialValid(pages, top);
    }

    method InitBlocks(pages: nat, top: nat)
      requires nodes.Valid() && nodes.next.Length == status.Length == pages
      requires status != freeList && status != nodes.prev && status != nodes.next
      requires freeList != nodes.prev && freeList != nodes.next
      requires |lists| == freeList.Length == top + 1
      requires forall k :: 0 <= k <= top ==> freeList[k] == NULL && lists[k] == []
      modifies this`lists, status, freeList, nodes.prev, nodes.next
      ensures Wired() && State() == InitialState(pages, top)
    {
      for i := 0 to pages
        invariant WiredTo(i)
        invariant forall k :: 0 <= k <= top ==> lists[k] == if k == top then HeadsBelow(i, top) else []
        invariant forall p :: 0 <= p < i ==> status[p] == if p % Pow2(top) != 0 then GROUPED else top
      {
        InitBlock(i, if i % Pow2(top) != 0 then GROUPED else top);
        AlignedIsDivisible(i, top);
      }
      assert State() == InitialState(pages, top);
    }

    /** init_block */
    method InitBlock(i: nat, st: int)
      requires WiredTo(i) && i < status.Length && st < freeList.Length
      modifies this`lists, status, freeList, nodes.prev, nodes.next
      ensures WiredTo(i + 1) && status[..] == old(status[..])[i := st]
      ensures lists == if st < 0 then old(lists) else old(lists)[st := [i] + old(lists[st])]
    {
      status[i] := st;
      CutInit(nodes.View(), i, lists);
      nodes.Init(i);
      FreeListInsert(i, st, i + 1);
    }

    // ----- page_alloc -----

    /** calculate_order */
    static method CalculateOrder(size: nat) returns (order: nat)
      requires size < WORD
      ensures order == OrderFor(size)
    {
      var s: nat := (size + PAGE_SIZE - 1) % WORD / PAGE_SIZE;
      s := (s + WORD - 1) % WORD;
      order := 0;
      while s > 0
        invariant order + BitLength(s) == OrderFor(size)
      {
        s := s / 2;
        order := order + 1;
      }
    }

    /** The split loop of page_alloc, from the block in hand down to the order wanted. */
    method SplitLoop(t: nat, order: nat, ghost ord: seq<nat>)
      requires Wired() && Held(State(), ord, t) && t < status.Length == |ord| && order <= ord[t] == status[t]
      modifies this`lists, status, freeList, nodes.prev, nodes.next
      ensures Wired()
      ensures State().Mark(t, OCCUPIED) == SplitDown(old(State()), t, ord[t], order)
    {
      hide Held, SplitDown, WiredTo, Base, Xor, Pow2;
      ghost var o := ord;
      HeldBounds(State(), o, t);
      while status[t] > order
        invariant Wired() && Held(State(), o, t) && t < status.Length == |o| && order <= o[t] == status[t]
        invariant State().Sized() && o[t] <= State().Top() && ord[t] <= old(State()).Top()
        invariant SplitDown(State(), t, o[t], order) == SplitDown(old(State()), t, ord[t], order)
        decreases status[t]
      {
        ghost var a := State();
        ghost var a1, o1, b := SplitRound(a, o, t, order);
        OffLists(a, o, t, b);
        status[t] := status[t] - 1;
        var level := status[t];
        var buddy := Xor(t, Pow2(level));
        status[buddy] := level;
        FreeListInsert(buddy, level, status.Length);
        assert State() == a1;
        o := o1;
      }
      SplitDone(State(), t, order);
    }

    /** page_alloc.  NULL and the address of page 0 are the same number. */
    method PageAlloc(size: nat) returns (addr: nat, ghost got: Option<nat>)
      requires Valid() && size < WORD
      modifies this`lists, status, freeList, nodes.prev, nodes.next
      ensures Valid()
      ensures if size == 0 then State() == old(State()) && got == None
              else (State(), got) == AllocOrder(old(State()), OrderFor(size))
      ensures addr == if got.Some? then got.value * PAGE_SIZE else 0
    {
      hide Held, SplitDown, AllocOrder, BuddyTheory.Valid, OrderFor, WiredTo, Base, Xor, Pow2, FreePage, TakenBlocks;
      if size == 0 {
        return 0, None;
      }
      var order := CalculateOrder(size);
      ghost var a := State();
      AllocTheorem(a, order);
      AllocFound(a, order);
      var level := FindLevel(order);
      if level >= freeList.Length {
        return 0, None;
      }
      var t := FreeListPop(level);
      got := Some(t);
      SplitLoop(t, order, Ord(a));
      status[t] := OCCUPIED;
      addr := t * PAGE_SIZE;
    }

    /** The search loop of page_alloc. */
    method FindLevel(order: nat) returns (level: nat)
      requires Wired()
      ensures FirstFit(lists, order) == if level < freeList.Length then Some(level) else None
    {
      level := order;
      while level < freeList.Length && freeList[level] == NULL
        invariant order <= level && FirstFit(lists, level) == FirstFit(lists, order)
        decreases freeList.Length - level
      {
        assert freeList[level] == At(lists[level], 0);
        level := level + 1;
      }
      if level < freeList.Length {
        assert freeList[level] == At(lists[level], 0);
      }
    }

    // ----- page_free -----

    /** page_free */
    method PageFree(addr: nat)
      requires Valid() && addr != MemSize() && status.Length > 0
      modifies this`lists, status, freeList, nodes.prev, nodes.next
      ensures Valid()
      ensures State() == if addr % PAGE_SIZE != 0 then old(State())
                         else FreeAt(old(State()), ToBlockIdx(addr, MemSize()))
    {
      if addr % PAGE_SIZE != 0 {
        return;
      }
      var t := ToBlockIdx(addr, MemSize());
      ghost var a := State();
      FreeTheorem(a, t);
      if status[t] != OCCUPIED {
        return;
      }
      ghost var ord := Ord(a);
      assert Marked(a.status, ord, t);
      Take(a, ord, t);
      FreeClimbs(a, ord, t, 0);
      MergeLoop(t, ord);
    }

    /** The status words and the lists determine every node link and every list head. */
    twostate lemma SameFields()
      requires old(Valid()) && Valid() && State() == old(State())
      ensures nodes.View() == old(nodes.View()) && freeList[..] == old(freeList[..])
    {
      WiredView();
      OldView();
      LinksDetermined(nodes.View(), old(nodes.View()), lists);
    }

    twostate lemma OldView()
      requires old(Wired())
      ensures nodes.Valid() && Holds(old(nodes.View()), old(lists))
    {
      assert Cut(old(nodes.View()), status.Length) == old(nodes.View());
    }

    /** A page_alloc that succeeds, undone at once by page_free, leaves every status word, every link
        of every node and every list head as it was. */
    method AllocThenFree(size: nat)
      requires Valid() && 0 < size < WORD && AllocOrder(State(), OrderFor(size)).1.Some?
      modifies this`lists, status, freeList, nodes.prev, nodes.next
      ensures Valid() && status[..] == old(status[..])
      ensures nodes.View() == old(nodes.View()) && freeList[..] == old(freeList[..])
    {
      hide AllocOrder, FreeAt, OrderFor, WiredTo, BuddyTheory.Valid;
      AllocFreeIdentity(State(), OrderFor(size));
      var addr; ghost var got;
      addr, got := PageAlloc(size);
      PageFree(addr);
      SameFields();
    }

    /** The merge loop of page_free. */
    method MergeLoop(target: nat, ghost ord: seq<nat>)
      requires Wired() && 0 < freeList.Length && Held(State(), ord, target)
      modifies this`lists, status, freeList, nodes.prev, nodes.next
      ensures Wired() && State() == FreeLoop(old(State()), target, 0)
    {
      hide Held, WiredTo, Base, Xor, Pow2, Without;
      var t := target;
      var level := 0;
      ghost var o := ord;
      HeldBounds(State(), o, t);
      while true
        invariant Wired() && Held(State(), o, t) && 0 <= t < |o| == status.Length && level <= o[t] <= State().Top()
        invariant State().Sized()
        invariant FreeLoop(State(), t, level) == FreeLoop(old(State()), target, 0)
        decreases freeList.Length - level
      {
        ghost var a := State();
        var buddy := Xor(t, Pow2(level));
        o := FreeRound(a, o, t, level);
        if buddy < t && status[buddy] == GROUPED {
          return;
        }
        if !(status[buddy] == level || status[buddy] == GROUPED) || level == freeList.Length - 1 {
          status[t] := level;
          FreeListInsert(t, level, status.Length);
          return;
        }
        if status[buddy] >= 0 {
          FreeListRemove(buddy, level);
        }
        if t > buddy {
          t, buddy := buddy, t;
        }
        status[buddy] := GROUPED;
        level := level + 1;
      }
    }

    // ----- is_allocated -----

    /** is_allocated */
    method IsAllocated(addr: nat) returns (b: bool)
      requires Valid() && addr != MemSize() && status.Length > 0
      ensures b == BuddyReserve.IsAllocated(State(), ToBlockIdx(addr, MemSize()))
    {
      var p := ToBlockIdx(addr, MemSize());
      p := HeadWalk(p);
      b := status[p] == OCCUPIED;
    }

    /** The walk over GROUPED marks, shared with memory_reserve. */
    method HeadWalk(page: nat) returns (p: nat)
      requires Valid() && page < status.Length
      ensures p == FindHead(State().status, page) < status.Length && status[p] != GROUPED
    {
      p := page;
      while status[p] == GROUPED
        invariant p <= page && FindHead(State().status, p) == FindHead(State().status, page)
        decreases p
      {
        FindHeadIs(State(), p);
        ghost var ord := Ord(State());
        assert Marked(State().status, ord, p);
        AndBelow(p, p - 1);
        p := And(p, p - 1);
      }
    }

    // ----- memory_reserve -----

    static lemma OthersFree(a: Pages, start: nat, size: nat)
      requires BuddyTheory.Valid(a) && FreeRange(a, start, size)
      ensures var r := ReserveRange(a, start, size);
              && BuddyTheory.Valid(r) && |r.status| == |a.status|
              && forall p: nat :: p < |a.status| ==>
                   (FreePage(r, p) <==> FreePage(a, p) && !(start <= p < start + size))
    {
      hide ReserveRange, FreePage, FreeRange, BuddyTheory.Valid;
      ReserveTheorem(a, start, size);
      forall p: nat | p < |a.status|
        ensures FreePage(ReserveRange(a, start, size), p) <==> FreePage(a, p) && !(start <= p < start + size)
      {
        ReservedPages(a, start, size, p);
      }
    }

    /** segment_block_seq */
    method SegmentBlockSeq(start: nat, size: nat) returns (order: nat)
      requires size > 0 && freeList.Length > 0
      ensures order == SegmentOrder(start, size, freeList.Length - 1)
    {
      order := freeList.Length - 1;
      while true
        invariant SegmentOrder(start, size, order) == SegmentOrder(start, size, freeList.Length - 1)
        decreases order
      {
        var base := Pow2(order);
        AlignedIsDivisible(start, order);
        if start % base == 0 && size >= base {
          return;
        }
        order := order - 1;
      }
    }

    /** The split walk of memory_reserve. */
    method CarveLoop(head: nat, sub: nat, start: nat, ghost ord: seq<nat>) returns (ghost o: seq<nat>)
      requires Wired() && head < status.Length == |ord| && sub <= ord[head] == status[head] < freeList.Length
      requires Held(State().Remove(head, ord[head]), ord, head) && State().Sized()
      requires Aligned(start, sub) && head <= start < head + Pow2(ord[head])
      requires head in lists[ord[head]]
      modifies this`lists, status, freeList, nodes.prev, nodes.next
      ensures Wired() && State() == Carve(old(State()), head, ord[head], sub, start)
      ensures start < status.Length && (start in lists[sub] || !On(lists, start))
    {
      hide Held, Carve, WiredTo, Base, Xor, Pow2, Without;
      o := ord;
      var parent: nat, cur: nat := head, status[head];
      while cur > sub
        invariant Wired() && State().Sized() && |lists| == freeList.Length
        invariant parent < status.Length == |o| && sub <= cur == o[parent] < freeList.Length
        invariant parent in lists[cur] || !On(lists, parent)
        invariant Held(State().Remove(parent, cur), o, parent)
        invariant parent <= start < parent + Pow2(cur)
        invariant Carve(State(), parent, cur, sub, start) == Carve(old(State()), head, ord[head], sub, start)
        decreases cur
      {
        ghost var a1, o1, keep := CarveStep(State(), o, parent, sub, start);
        parent := CarveRound(parent, cur, start);
        cur := cur - 1;
        assert State() == a1 && parent == keep;
        o := o1;
      }
      HandAligned(State().Remove(parent, cur), o, parent);
      BaseUnique(parent, start, sub);
      CarveDone(State(), parent, sub, start);
    }

    /** One round of the split walk: the half that holds start is the next parent. */
    method CarveRound(parent: nat, cur: nat, start: nat) returns (keep: nat)
      requires Wired() && parent < status.Length && 0 < cur < freeList.Length
      requires parent in lists[cur] || !On(lists, parent)
      requires var b := Xor(parent, Pow2(cur - 1));
               b < status.Length && !On(State().Remove(parent, cur).lists, if b <= start then parent else b)
      modifies this`lists, status, freeList, nodes.prev, nodes.next
      ensures Wired()
      ensures var b := Xor(parent, Pow2(cur - 1)); var other := if b <= start then parent else b;
              && keep == (if b <= start then b else parent)
              && State() == old(State()).Remove(parent, cur).Mark(other, cur - 1).Insert(other, cur - 1)
    {
      FreeListRemove(parent, cur);
      var level := cur - 1;
      var buddy := Xor(parent, Pow2(level));
      keep := parent;
      if buddy <= start {
        keep, buddy := buddy, keep;
      }
      status[buddy] := level;
      FreeListInsert(buddy, level, status.Length);
    }

    /** memory_reserve, of a region that is wholly free */
    method MemoryReserve(start: nat, size: nat)
      requires Valid() && start < TWO_64 && size < WORD
      requires var first, last := FirstPage(start, MemSize()), LastPage(start, size, MemSize());
               first <= last ==> FreeRange(State(), first, last - first + 1)
      modifies this`lists, status, freeList, nodes.prev, nodes.next
      ensures Valid()
      ensures var first, last := FirstPage(start, MemSize()), LastPage(start, size, MemSize());
              State() == if first <= last then ReserveRange(old(State()), first, last - first + 1) else old(State())
      ensures 0 < size && start + size <= MemSize() <= TWO_64 ==>
                forall p: nat :: p < status.Length ==>
                  (FreePage(State(), p) <==> FreePage(old(State()), p) && !Touches(start, size, p))
    {
      hide ReserveRange, BuddyTheory.Valid, WiredTo, FreePage, FirstPage, LastPage, FreeRange;
      var from, last := FirstPage(start, MemSize()), LastPage(start, size, MemSize());
      ghost var first := from;
      ghost var a0 := State();
      if 0 < size && start + size <= MemSize() <= TWO_64 {
        RegionPages(start, size, MemSize());
        OthersFree(a0, first, last + 1 - first);
      }
      while from <= last
        invariant Valid() && |State().status| == |a0.status|
        invariant first <= last ==> from <= last + 1 && FreeRange(State(), from, last + 1 - from)
        invariant first <= last ==>
                    ReserveRange(State(), from, last + 1 - from) == ReserveRange(a0, first, last + 1 - first)
        invariant first > last ==> from == first && State() == a0
        decreases if from <= last then last + 1 - from else 0
      {
        from := ReserveBlock(from, last + 1 - from);
      }
      if first <= last {
        ReserveNone(State(), from);
      }
    }

    /** One round of the reservation loop. */
    method ReserveBlock(from: nat, size: nat) returns (next: nat)
      requires Valid() && FreeRange(State(), from, size) && size > 0
      modifies this`lists, status, freeList, nodes.prev, nodes.next
      ensures Valid() && from < next <= from + size && FreeRange(State(), next, from + size - next)
      ensures ReserveRange(State(), next, from + size - next) == ReserveRange(old(State()), from, size)
    {
      hide Held, Carve, ReserveRange, ReserveOne, BuddyTheory.Valid, WiredTo, Base, Xor, Without, FreePage,
           Holds, FindHead;
      ghost var a := State();
      ReserveRoundIs(a, from, size);
      var sub := SegmentBlockSeq(from, size);
      ReserveFound(a, from, sub);
      var parent := HeadWalk(from);
      ghost var o := CarveLoop(parent, sub, from, Ord(a));
      status[from] := RESERVED;
      FreeListRemove(from, sub);
      next := from + Pow2(sub);
    }
  }
}
