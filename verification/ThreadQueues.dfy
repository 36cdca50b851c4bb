/** lib/template/queue.c: queues over the nodes that are embedded in the threads.  The run, wait
    and dead queues share those nodes, so a thread can be on one of them at a time. */
module ThreadQueues {
  import opened Machine
  import opened LinkedNodes

  const RUN: nat := 0
  const WAIT: nat := 1
  const DEAD: nat := 2
  const QUEUES: nat := 3

  class Queues {
    const nodes: Nodes
    const front: array<int>
    const back: array<int>
    const size: array<int>
    ghost var lists: seq<seq<nat>>

    ghost predicate Valid()
      reads this, nodes, nodes.prev, nodes.next, front, back, size
    {
      && nodes.Valid() && |lists| == front.Length == back.Length == size.Length == QUEUES
      && front != back && front != size && back != size
      && {front, back, size} !! {nodes.prev, nodes.next}
      && Holds(nodes.View(), lists)
      && forall k: nat :: k < QUEUES ==> Ends(k)
    }

    /** front, back and size of queue k are those of its list. */
    ghost predicate Ends(k: nat)
      requires k < QUEUES && |lists| == front.Length == back.Length == size.Length == QUEUES
      reads this, front, back, size
    {
      && front[k] == At(lists[k], 0) && back[k] == At(lists[k], |lists[k]| - 1) && size[k] == |lists[k]|
    }

    /** queue_init, three times */
    constructor (threads: nat)
      ensures Valid() && lists == seq(QUEUES, _ => []) && nodes.next.Length == threads
      ensures fresh(nodes) && fresh(nodes.prev) && fresh(nodes.next) && fresh(front) && fresh(back) && fresh(size)
    {
      nodes := new Nodes(threads);
      front := new int[QUEUES](_ => NULL);
      back := new int[QUEUES](_ => NULL);
      size := new int[QUEUES](_ => 0);
      lists := seq(QUEUES, _ => []);
      new;
      for i := 0 to threads
        invariant forall x :: 0 <= x < i ==> nodes.next[x] == NULL && nodes.prev[x] == NULL
        invariant fresh(nodes.prev) && fresh(nodes.next)
        modifies nodes.prev, nodes.next
      {
        nodes.next[i] := NULL;
        nodes.prev[i] := NULL;
      }
      AllNull(nodes.View(), lists);
    }

    static lemma AllNull(l: Links, lists: seq<seq<nat>>)
      requires WellSized(l) && forall x :: IsNode(l, x) ==> l.next[x] == NULL && l.prev[x] == NULL
      requires forall k :: 0 <= k < |lists| ==> lists[k] == []
      ensures Holds(l, lists)
    {
    }

    /** queue_empty */
    method Empty(k: nat) returns (b: bool)
      requires Valid() && k < QUEUES
      ensures b <==> lists[k] == []
    {
      assert Ends(k);
      b := size[k] == 0;
    }

    /** queue_push */
    method Push(k: nat, x: nat)
      requires Valid() && k < QUEUES && x < nodes.next.Length && !On(lists, x)
      modifies this`lists, nodes.prev, nodes.next, front, back, size
      ensures Valid() && lists == old(lists)[k := old(lists[k]) + [x]]
    {
      hide Holds, On, AddLinks;
      assert Ends(RUN) && Ends(WAIT) && Ends(DEAD);
      Pushed(nodes.View(), lists, k, x);
      if size[k] == 0 {
        back[k] := x;
        front[k] := x;
      } else {
        nodes.Add(x, back[k], NULL);
        back[k] := x;
      }
      size[k] := size[k] + 1;
      lists := lists[k := lists[k] + [x]];
    }

    /** Pushing on an empty queue leaves the node's links alone; they are null already. */
    static lemma Pushed(l: Links, lists: seq<seq<nat>>, k: nat, x: nat)
      requires Holds(l, lists) && k < |lists| && IsNode(l, x) && !On(lists, x)
      ensures WellSized(l) && AddLinks(l, x, NULL, NULL) == l
      ensures var tail := At(lists[k], |lists[k]| - 1);
              && (tail == NULL || IsNode(l, tail))
              && Holds(AddLinks(l, x, tail, NULL), lists[k := lists[k] + [x]])
    {
      PushBack(l, lists, k, x);
      assert Unlinked(l, x);
    }

    /** queue_pop: the first node, or NULL */
    method Pop(k: nat) returns (x: int)
      requires Valid() && k < QUEUES
      modifies this`lists, nodes.prev, nodes.next, front, back, size
      ensures Valid()
      ensures if old(lists[k]) == [] then x == NULL && lists == old(lists)
              else x == old(lists[k][0]) && lists == old(lists)[k := old(lists[k])[1..]]
    {
      assert Ends(k);
      if size[k] == 0 {
        return NULL;
      }
      x := front[k];
      Detach(k, x);
    }

    /** Taking the first node off a queue. */
    method Detach(k: nat, x: nat)
      requires Valid() && k < QUEUES && lists[k] != [] && x == lists[k][0]
      modifies this`lists, nodes.prev, nodes.next, front, back, size
      ensures Valid() && lists == old(lists)[k := old(lists[k])[1..]]
    {
      hide Holds, Without, RemoveLinks, On;
      ghost var xs := lists[k];
      assert Ends(RUN) && Ends(WAIT) && Ends(DEAD);
      FirstOut(nodes.View(), lists, k);
      var next := nodes.Remove(x);
      front[k] := next;
      size[k] := size[k] - 1;
      if size[k] == 0 {
        back[k] := NULL;
      }
      lists := lists[k := xs[1..]];
    }

    static lemma FirstOut(l: Links, lists: seq<seq<nat>>, k: nat)
      requires Holds(l, lists) && k < |lists| && lists[k] != []
      ensures var x := lists[k][0];
              && IsNode(l, x) && l.prev[x] != x && l.next[x] != x && l.next[x] == At(lists[k], 1)
              && (l.prev[x] == NULL || IsNode(l, l.prev[x])) && (l.next[x] == NULL || IsNode(l, l.next[x]))
              && Holds(RemoveLinks(l, x), lists[k := lists[k][1..]])
    {
      var x := lists[k][0];
      TakeOut(l, lists, k, x);
      WithoutAt(lists[k], 0);
      assert Without(lists[k], x) == lists[k][1..];
      assert Placed(l, lists[k], 0);
    }

    /** queue_erase of a node of the queue */
    method Erase(k: nat, x: nat)
      requires Valid() && k < QUEUES && x in lists[k]
      modifies this`lists, nodes.prev, nodes.next, front, back, size
      ensures Valid() && lists == old(lists)[k := Without(old(lists[k]), x)]
    {
      hide Holds, Without, RemoveLinks, On;
      assert Ends(k);
      if x == front[k] {
        WithoutAt(lists[k], 0);
        assert lists[k][..0] + lists[k][1..] == lists[k][1..];
        var _ := Pop(k);
      } else {
        EraseInner(k, x);
      }
    }

    /** The rest of queue_erase, for a node that is not the first. */
    method EraseInner(k: nat, x: nat)
      requires Valid() && k < QUEUES && x in lists[k] && x != front[k]
      modifies this`lists, nodes.prev, nodes.next, back, size
      ensures Valid() && lists == old(lists)[k := Without(old(lists[k]), x)]
    {
      hide Holds, Without, RemoveLinks, On;
      assert Ends(RUN) && Ends(WAIT) && Ends(DEAD);
      ErasedEnds(nodes.View(), lists, k, x);
      if x == back[k] {
        back[k] := nodes.prev[x];
      }
      var _ := nodes.Remove(x);
      size[k] := size[k] - 1;
      lists := lists[k := Without(lists[k], x)];
    }

    /** Front, back and length after taking out a node that is not the first. */
    static lemma ErasedEnds(l: Links, lists: seq<seq<nat>>, k: nat, x: nat)
      requires Holds(l, lists) && k < |lists| && x in lists[k] && At(lists[k], 0) != x
      ensures IsNode(l, x) && l.prev[x] != x && l.next[x] != x
      ensures (l.prev[x] == NULL || IsNode(l, l.prev[x])) && (l.next[x] == NULL || IsNode(l, l.next[x]))
      ensures Holds(RemoveLinks(l, x), lists[k := Without(lists[k], x)])
      ensures var xs := lists[k]; var ys := Without(xs, x);
              && At(ys, 0) == At(xs, 0) && |ys| == |xs| - 1
              && At(ys, |ys| - 1) == if At(xs, |xs| - 1) == x then l.prev[x] else At(xs, |xs| - 1)
    {
      TakeOut(l, lists, k, x);
      var xs := lists[k];
      assert Chain(l, xs) && NoDup(xs);
      var j :| 0 <= j < |xs| && xs[j] == x;
      WithoutAt(xs, j);
      assert Placed(l, xs, j);
    }

    /** The search loop of find_thread, over one queue; threads are found by their node. */
    method Find(k: nat, id: nat, ids: array<nat>) returns (found: int)
      requires Valid() && k < QUEUES && ids.Length == nodes.next.Length
      ensures found == NULL ==> forall x :: x in lists[k] ==> x < ids.Length && ids[x] != id
      ensures found != NULL ==> found >= 0 && found as nat in lists[k] && found < ids.Length && ids[found] == id
    {
      assert Ends(k);
      if size[k] == 0 {
        return NULL;
      }
      var iter := front[k];
      ghost var i := 0;
      ghost var xs := lists[k];
      assert Placed(nodes.View(), xs, 0);
      while ids[iter] != id && nodes.next[iter] != NULL
        invariant i < |xs| && iter == xs[i] && 0 <= iter < ids.Length && Placed(nodes.View(), xs, i)
        invariant forall j :: 0 <= j < i ==> xs[j] < ids.Length && ids[xs[j]] != id
        decreases |xs| - i
      {
        iter := nodes.next[iter];
        i := i + 1;
        assert Placed(nodes.View(), xs, i);
      }
      if ids[iter] == id {
        return iter;
      }
      return NULL;
    }
  }
}
