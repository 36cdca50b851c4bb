/** Runs of the page allocator: any sequence of reservations, allocations and frees. */
module BuddyRuns {
  import opened Machine
  import opened Bits
  import opened BuddyState
  import opened LinkedNodes
  import opened BuddyTheory
  import opened BuddyOps
  import opened BuddyReserve
  import opened PageAllocator

  /** A call, with sizes in bytes and pages by index. */
  datatype Call = Reserve(first: nat, pages: nat) | Alloc(size: nat) | Free(page: nat)

  /** memory_reserve asks for a free region; the other calls accept anything in range. */
  ghost predicate Allowed(a: Pages, c: Call)
    requires Valid(a)
  {
    match c
    case Reserve(first, pages) => FreeRange(a, first, pages)
    case Alloc(size) => size < WORD
    case Free(page) => page < |a.status|
  }

  ghost function Apply(a: Pages, c: Call): (b: Pages)
    requires Valid(a) && Allowed(a, c)
    ensures Valid(b) && |b.status| == |a.status| && |b.lists| == |a.lists|
  {
    match c
    case Reserve(first, pages) => ReserveTheorem(a, first, pages); ReserveRange(a, first, pages)
    case Alloc(size) =>
      if size == 0 then a else AllocTheorem(a, OrderFor(size)); AllocOrder(a, OrderFor(size)).0
    case Free(page) => FreeTheorem(a, page); FreeAt(a, page)
  }

  /** The calls take state a to state b. */
  ghost predicate Runs(a: Pages, calls: seq<Call>, b: Pages)
    requires Valid(a)
    decreases |calls|
  {
    if calls == [] then a == b
    else Allowed(a, calls[0]) && Runs(Apply(a, calls[0]), calls[1..], b)
  }

  lemma {:induction false} RunsKeep(a: Pages, calls: seq<Call>, b: Pages)
    requires Valid(a) && Runs(a, calls, b)
    ensures Valid(b) && |b.status| == |a.status| && |b.lists| == |a.lists|
    decreases |calls|
  {
    if calls != [] {
      RunsKeep(Apply(a, calls[0]), calls[1..], b);
    }
  }

  ghost predicate Reached(pages: nat, top: nat, b: Pages)
    requires Aligned(pages, top + 1)
  {
    InitialValid(pages, top);
    exists calls :: Runs(InitialState(pages, top), calls, b)
  }

  /** The invariant, spelled out.  In every state reached from init_page_array there is one
      partition of all pages into aligned blocks, each with a marked head and a GROUPED
      interior; a free list holds exactly the free heads of its order, once each; and no two
      free buddies below the top order coexist. */
  lemma ReachedStates(pages: nat, top: nat, b: Pages) returns (ord: seq<nat>)
    requires Aligned(pages, top + 1) && Reached(pages, top, b)
    ensures |b.status| == |ord| == pages && |b.lists| == top + 1
    ensures forall p: nat :: p < pages ==> ord[p] <= top
    ensures forall p: nat :: p < pages ==>
              Base(p, ord[p]) <= p < Base(p, ord[p]) + Pow2(ord[p]) <= pages
    ensures forall p: nat, q: nat :: p < pages && Base(p, ord[p]) <= q < Base(p, ord[p]) + Pow2(ord[p]) && q < pages ==>
              ord[q] == ord[p]
    ensures forall p: nat :: p < pages ==>
              if p != Base(p, ord[p]) then b.status[p] == GROUPED
              else b.status[p] == ord[p] || b.status[p] == OCCUPIED || b.status[p] == RESERVED
    ensures forall k: nat, p: nat :: k <= top ==> (p in b.lists[k] <==> p < pages && b.status[p] == k)
    ensures forall k: nat :: k <= top ==> NoDup(b.lists[k])
    ensures forall p: nat :: p < pages && 0 <= b.status[p] < top ==> !BuddyFree(b, p, b.status[p])
  {
    hide Base, Pow2, Lonely, Runs, Apply;
    InitialValid(pages, top);
    var calls :| Runs(InitialState(pages, top), calls, b);
    RunsKeep(InitialState(pages, top), calls, b);
    assert |InitialState(pages, top).status| == pages && |InitialState(pages, top).lists| == top + 1;
    ord := Ord(b);
    forall p: nat | p < pages
      ensures ord[p] <= top && Base(p, ord[p]) <= p < Base(p, ord[p]) + Pow2(ord[p]) <= pages
      ensures forall q: nat :: Base(p, ord[p]) <= q < Base(p, ord[p]) + Pow2(ord[p]) && q < pages ==> ord[q] == ord[p]
      ensures if p != Base(p, ord[p]) then b.status[p] == GROUPED
              else b.status[p] == ord[p] || b.status[p] == OCCUPIED || b.status[p] == RESERVED
      ensures 0 <= b.status[p] < top ==> !BuddyFree(b, p, b.status[p])
    {
      PageIn(b, ord, p);
    }
    forall k: nat | k <= top
      ensures NoDup(b.lists[k]) && forall p: nat :: p in b.lists[k] <==> p < pages && b.status[p] == k
    {
      assert Listed(b, k, -1);
    }
  }

  /** What the invariant says of one page. */
  lemma PageIn(b: Pages, ord: seq<nat>, p: nat)
    requires Inv(b, ord) && p < |b.status|
    ensures |ord| == |b.status| && ord[p] <= b.Top()
    ensures Base(p, ord[p]) <= p < Base(p, ord[p]) + Pow2(ord[p]) <= |ord|
    ensures forall q: nat :: Base(p, ord[p]) <= q < Base(p, ord[p]) + Pow2(ord[p]) && q < |ord| ==> ord[q] == ord[p]
    ensures if p != Base(p, ord[p]) then b.status[p] == GROUPED
            else b.status[p] == ord[p] || b.status[p] == OCCUPIED || b.status[p] == RESERVED
    ensures 0 <= b.status[p] < b.Top() ==> !BuddyFree(b, p, b.status[p])
  {
    BaseBounds(p, ord[p]);
    BlockFits(|ord|, b.Top(), p, ord[p]);
    assert Whole(ord, p) && Marked(b.status, ord, p) && Lonely(b, p, -1);
  }

  // ----- giving everything back -----

  ghost function Reservations(a: Pages): set<Block>
    requires Valid(a)
  {
    set x | x in TakenBlocks(a) && x.kind == RESERVED
  }

  /** Frees of the given heads, one after the other. */
  function FreeEach(a: Pages, heads: seq<nat>): (r: Pages)
    requires a.Sized() && forall i :: 0 <= i < |heads| ==> heads[i] < |a.status|
    ensures r.Sized()
    decreases |heads|
  {
    if heads == [] then a else FreeEach(FreeAt(a, heads[0]), heads[1..])
  }

  /** Frees of any pages, in any order, take exactly the live blocks that they head. */
  lemma {:induction false} FreeEachLeaves(a: Pages, heads: seq<nat>)
    requires Valid(a) && a.Sized() && forall i :: 0 <= i < |heads| ==> heads[i] < |a.status|
    ensures var r := FreeEach(a, heads); Valid(r) && |r.status| == |a.status| && |r.lists| == |a.lists|
    ensures forall x :: x in TakenBlocks(FreeEach(a, heads)) <==>
                        x in TakenBlocks(a) && !(x.kind == OCCUPIED && x.head in heads)
    decreases |heads|
  {
    hide FreeAt, Ord;
    if heads != [] {
      var h, b := heads[0], FreeAt(a, heads[0]);
      FreeTheorem(a, h);
      forall x
        ensures x in TakenBlocks(b) <==> x in TakenBlocks(a) && !(x.kind == OCCUPIED && x.head == h)
      {
        if x in TakenBlocks(a) { assert x == Block(x.head, Ord(a)[x.head], a.status[x.head]); }
      }
      FreeEachLeaves(b, heads[1..]);
      assert forall y :: y in heads <==> y == h || y in heads[1..];
    }
  }

  /** In particular, when every live block is freed, the reservations are left. */
  lemma FreeAllLeaves(a: Pages, heads: seq<nat>)
    requires Valid(a) && a.Sized() && forall i :: 0 <= i < |heads| ==> heads[i] < |a.status|
    requires forall x :: x in TakenBlocks(a) && x.kind == OCCUPIED ==> x.head in heads
    ensures var r := FreeEach(a, heads);
            Valid(r) && |r.status| == |a.status| && |r.lists| == |a.lists| && TakenBlocks(r) == Reservations(a)
  {
    FreeEachLeaves(a, heads);
    forall x | x in TakenBlocks(a)
      ensures x.kind == OCCUPIED || x.kind == RESERVED
    {
    }
  }

  /** What is reserved stays so, and no call but memory_reserve adds to it. */
  lemma {:induction false} ReservationsStay(a: Pages, calls: seq<Call>, b: Pages)
    requires Valid(a) && Runs(a, calls, b)
    ensures Valid(b) && Reservations(a) <= Reservations(b)
    ensures (forall i :: 0 <= i < |calls| ==> !calls[i].Reserve?) ==> Reservations(b) == Reservations(a)
    decreases |calls|
  {
    hide AllocOrder, FreeAt, ReserveRange;
    RunsKeep(a, calls, b);
    if calls != [] {
      var c := calls[0];
      var m := Apply(a, c);
      match c {
        case Reserve(first, pages) => ReserveTheorem(a, first, pages);
        case Alloc(size) => if size != 0 { AllocTheorem(a, OrderFor(size)); }
        case Free(page) => FreeTheorem(a, page);
      }
      assert Reservations(a) <= Reservations(m) && (!c.Reserve? ==> Reservations(m) == Reservations(a));
      ReservationsStay(m, calls[1..], b);
    }
  }

  /** Start-up reserves page 0 first, the spin table's, and it is reserved in every later state: the
      address of a block is never 0, which page_alloc returns for a failure. */
  lemma PageZeroReserved(n: nat, top: nat, calls: seq<Call>, b: Pages)
    requires Aligned(n, top + 1) && n > 0
    ensures BuddyTheory.Valid(InitialState(n, top)) && FreeRange(InitialState(n, top), 0, 1)
    ensures var a := ReserveRange(InitialState(n, top), 0, 1);
            Valid(a) && (Runs(a, calls, b) ==> Valid(b) && |b.status| == n && b.status[0] == RESERVED)
  {
    hide ReserveRange, Runs;
    InitialValid(n, top);
    var i := InitialState(n, top);
    InitialFree(n, top);
    var a := ReserveRange(i, 0, 1);
    ReserveTheorem(i, 0, 1);
    ReservedPages(i, 0, 1, 0);
    var x := TakenOwner(a, 0);
    assert x in Reservations(a);
    if Runs(a, calls, b) {
      RunsKeep(a, calls, b);
      ReservationsStay(a, calls, b);
      TakenCovers(b, x, 0);
    }
  }

  lemma InitialFree(n: nat, top: nat)
    requires Aligned(n, top + 1) && n > 0
    ensures Valid(InitialState(n, top)) && FreePage(InitialState(n, top), 0)
  {
    InitialValid(n, top);
    var a := InitialState(n, top);
    if !FreePage(a, 0) {
      var x := TakenOwner(a, 0);
    }
  }

  /** After any history of allocations and frees, freeing every block still out, in any order,
      brings back every status word as it was when only the reservations had been made. */
  lemma GivingBackRestores(a: Pages, calls: seq<Call>, b: Pages, heads: seq<nat>)
    requires Valid(a) && Runs(a, calls, b) && TakenBlocks(a) == Reservations(a)
    requires forall i :: 0 <= i < |calls| ==> !calls[i].Reserve?
    requires forall i :: 0 <= i < |heads| ==> heads[i] < |a.status|
    requires forall h: nat :: h < |b.status| && b.status[h] == OCCUPIED ==> h in heads
    ensures b.Sized() && |b.status| == |a.status| && FreeEach(b, heads).status == a.status
    ensures forall k: nat, p: nat :: k < |a.lists| && |FreeEach(b, heads).lists| == |a.lists| ==>
              (p in FreeEach(b, heads).lists[k] <==> p in a.lists[k])
  {
    RunsKeep(a, calls, b);
    ListsInRange(b);
    ReservationsStay(a, calls, b);
    FreeAllLeaves(b, heads);
    Canonical(FreeEach(b, heads), a);
  }
}
