/** queue_pop of lib/template/queue.c, statement by statement.  kill_zombies calls it with the timer
    on, so that schedule can come in between any two statements, and other threads then push. */
module SplitPop {
  import opened Machine
  import opened LinkedNodes

  datatype Queue = Queue(links: Links, front: int, back: int, size: int)

  /** The queue holds the nodes xs, in this order, and no other node is linked. */
  ghost predicate Is(q: Queue, xs: seq<nat>) {
    Holds(q.links, [xs]) && q.front == At(xs, 0) && q.back == At(xs, |xs| - 1) && q.size == |xs|
  }

  /** An assignment through a pointer that is not null. */
  function Put(field: seq<int>, x: int, v: int): (r: seq<int>)
    ensures |r| == |field|
  {
    if 0 <= x < |field| then field[x := v] else field
  }

  function Get(field: seq<int>, x: int): int {
    if 0 <= x < |field| then field[x] else NULL
  }

  /** queue_push */
  function Push(q: Queue, x: nat): Queue {
    if q.size == 0 then q.(front := x, back := x, size := 1)
    else
      Queue(Links(Put(q.links.prev, x, q.back), Put(Put(q.links.next, x, NULL), q.back, x)), q.front, x, q.size + 1)
  }

  function PushAll(q: Queue, ys: seq<nat>): Queue
    decreases |ys|
  {
    if ys == [] then q else PushAll(Push(q, ys[0]), ys[1..])
  }

  // ----- queue_pop -----

  /** The variables of queue_pop and of list_remove in it. */
  datatype Pop = Pop(q: Queue, target: int, temp: int, zero: bool)

  const LAST: nat := 11

  /** The statements of queue_pop for a queue that was not empty. */
  function Step(pc: nat, s: Pop): Pop {
    var l := s.q.links;
    match pc
    case 1 => s.(target := s.q.front)
    case 2 => s.(q := s.q.(links := l.(next := Put(l.next, Get(l.prev, s.target), Get(l.next, s.target)))))
    case 3 => s.(q := s.q.(links := l.(prev := Put(l.prev, Get(l.next, s.target), Get(l.prev, s.target)))))
    case 4 => s.(temp := Get(l.next, s.target))
    case 5 => s.(q := s.q.(links := l.(next := Put(l.next, s.target, NULL))))
    case 6 => s.(q := s.q.(links := l.(prev := Put(l.prev, s.target, NULL))))
    case 7 => s.(q := s.q.(front := s.temp))
    case 8 => s.(q := s.q.(size := s.q.size - 1))
    case 9 => s.(zero := s.q.size == 0)
    case 10 => if s.zero then s.(q := s.q.(back := NULL)) else s
    case _ => s
  }

  /** The first n statements. */
  function First(n: nat, q: Queue): Pop {
    if n == 0 then Pop(q, NULL, NULL, false) else Step(n - 1, First(n - 1, q))
  }

  /** The statements from n on. */
  function Rest(n: nat, s: Pop): Pop
    decreases LAST - n
  {
    if n >= LAST then s else Rest(n + 1, Step(n, s))
  }

  /** The queue is popped, and before statement n others push ys. */
  function Split(n: nat, q: Queue, ys: seq<nat>): Pop {
    var s := First(n, q);
    Rest(n, s.(q := PushAll(s.q, ys)))
  }

  // ----- uninterrupted -----

  lemma {:induction false} PushIs(q: Queue, xs: seq<nat>, x: nat)
    requires Is(q, xs) && IsNode(q.links, x) && x !in xs
    ensures Is(Push(q, x), xs + [x]) && |Push(q, x).links.next| == |q.links.next|
  {
    var lists := [xs];
    assert lists[0] == xs;
    PushBack(q.links, lists, 0, x);
    assert lists[0 := xs + [x]] == [xs + [x]];
    if xs == [] {
      assert Unlinked(q.links, x);
      assert AddLinks(q.links, x, NULL, NULL) == q.links;
    } else {
      assert Placed(q.links, xs, |xs| - 1);
    }
  }

  /** ys are nodes, none of them on a queue of xs, and all different. */
  ghost predicate Fresh(q: Queue, xs: seq<nat>, ys: seq<nat>) {
    NoDup(xs + ys) && forall i :: 0 <= i < |ys| ==> IsNode(q.links, ys[i])
  }

  lemma {:induction false} PushAllIs(q: Queue, xs: seq<nat>, ys: seq<nat>)
    requires Is(q, xs) && Fresh(q, xs, ys)
    ensures Is(PushAll(q, ys), xs + ys) && |PushAll(q, ys).links.next| == |q.links.next|
    decreases |ys|
  {
    hide Is, Push;
    if ys == [] {
      assert xs + ys == xs;
    } else {
      var y := ys[0];
      forall i | 0 <= i < |xs|
        ensures xs[i] != y
      {
        assert (xs + ys)[i] == xs[i] && (xs + ys)[|xs|] == y;
      }
      PushIs(q, xs, y);
      assert (xs + [y]) + ys[1..] == xs + ys;
      PushAllIs(Push(q, y), xs + [y], ys[1..]);
    }
  }

  /** The whole of queue_pop, when nothing comes in between. */
  function PopAll(q: Queue): Pop {
    Rest(0, First(0, q))
  }

  lemma PopIs(q: Queue, xs: seq<nat>)
    requires Is(q, xs) && xs != []
    ensures PopAll(q).target == xs[0] && Is(PopAll(q).q, xs[1..])
    ensures |xs| == 1 ==> PopAll(q) == Pop(Queue(q.links, NULL, NULL, 0), xs[0], NULL, true)
  {
    hide Step;
    var lists := [xs];
    var x, l := xs[0], q.links;
    assert lists[0] == xs;
    assert Chain(l, xs) && Placed(l, xs, 0);
    TakeOut(l, lists, 0, x);
    WithoutAt(xs, 0);
    assert xs[..0] + xs[1..] == xs[1..];
    assert lists[0 := xs[1..]] == [xs[1..]];
    PopFields(q, x);
  }

  lemma PopFields(q: Queue, x: nat)
    requires WellSized(q.links) && IsNode(q.links, x) && q.front == x && q.links.prev[x] == NULL
    requires var n := q.links.next[x]; n == NULL || (IsNode(q.links, n) && n != x)
    ensures PopAll(q) ==
              Pop(Queue(RemoveLinks(q.links, x), q.links.next[x], if q.size == 1 then NULL else q.back, q.size - 1),
                  x, q.links.next[x], q.size == 1)
  {
  }

  // ----- with more than one node, pushes may come anywhere -----

  /** Before statement n the node that leaves is not the last, and y is not near it. */
  predicate Long(n: nat, s: Pop, y: nat) {
    var l, x := s.q.links, if n <= 1 then s.q.front else s.target;
    && WellSized(l) && IsNode(l, x) && IsNode(l, y) && IsNode(l, s.q.back)
    && x != y && x != s.q.back && y != s.q.back && !s.zero
    && l.prev[x] == NULL && l.next[x] != y && l.next[x] != x
    && s.q.size >= if n <= 8 then 2 else 1
  }

  /** Such a push and a statement of queue_pop may change places. */
  lemma StepCommutes(n: nat, s: Pop, y: nat)
    requires Long(n, s, y)
    ensures Long(n + 1, Step(n, s), y)
    ensures Step(n, s.(q := Push(s.q, y))) == Step(n, s).(q := Push(Step(n, s).q, y))
  {
  }

  lemma {:induction false} RestCommutes(n: nat, s: Pop, y: nat)
    requires Long(n, s, y)
    ensures Rest(n, s.(q := Push(s.q, y))) == Rest(n, s).(q := Push(Rest(n, s).q, y))
    decreases LAST - n
  {
    hide Long, Step, Push;
    if n < LAST {
      StepCommutes(n, s, y);
      RestCommutes(n + 1, Step(n, s), y);
    }
  }

  /** Another push does not bring the node that leaves to the end. */
  lemma PushLong(n: nat, s: Pop, y: nat, z: nat)
    requires Long(n, s, y) && Long(n, s, z) && y != z
    ensures Long(n, s.(q := Push(s.q, y)), z)
  {
  }

  lemma {:induction false} RestCommutesAll(n: nat, s: Pop, ys: seq<nat>)
    requires NoDup(ys) && forall i :: 0 <= i < |ys| ==> Long(n, s, ys[i])
    ensures Rest(n, s.(q := PushAll(s.q, ys))).q == PushAll(Rest(n, s).q, ys)
    ensures Rest(n, s.(q := PushAll(s.q, ys))).target == Rest(n, s).target
    decreases |ys|
  {
    hide Long, Push, Rest;
    if ys == [] {
      assert s.(q := s.q) == s;
    } else {
      var t := s.(q := Push(s.q, ys[0]));
      RestCommutes(n, s, ys[0]);
      forall i | 0 <= i < |ys[1..]|
        ensures Long(n, t, ys[1..][i])
      {
        PushLong(n, s, ys[0], ys[1..][i]);
      }
      assert forall i, j :: 0 <= i < j < |ys[1..]| ==> ys[1..][i] == ys[i + 1] && ys[1..][j] == ys[j + 1];
      RestCommutesAll(n, t, ys[1..]);
    }
  }

  lemma {:induction false} FirstLong(n: nat, q: Queue, y: nat)
    requires Long(0, Pop(q, NULL, NULL, false), y)
    ensures Long(n, First(n, q), y)
  {
    hide Step, Push, Long;
    if n > 0 {
      FirstLong(n - 1, q, y);
      StepCommutes(n - 1, First(n - 1, q), y);
    }
  }

  lemma {:induction false} RestFirst(n: nat, q: Queue)
    requires n <= LAST
    ensures Rest(n, First(n, q)) == PopAll(q)
  {
    hide Step;
    if n > 0 { RestFirst(n - 1, q); }
  }

  /** Every push of ys may wait until the pop is over. */
  lemma LongSplit(n: nat, q: Queue, xs: seq<nat>, ys: seq<nat>)
    requires n <= LAST && Is(q, xs) && |xs| > 1 && Fresh(q, xs, ys)
    ensures Split(n, q, ys).target == xs[0] && Is(Split(n, q, ys).q, xs[1..] + ys)
  {
    hide Is, Rest, First, Push;
    forall i | 0 <= i < |ys|
      ensures Long(n, First(n, q), ys[i])
    {
      LongStart(q, xs, ys, i);
      FirstLong(n, q, ys[i]);
    }
    RestFirst(n, q);
    PopIs(q, xs);
    NoDupParts(xs, ys);
    RestCommutesAll(n, First(n, q), ys);
    PopSizes(q, xs);
    PushAllIs(PopAll(q).q, xs[1..], ys);
  }

  lemma LongStart(q: Queue, xs: seq<nat>, ys: seq<nat>, i: nat)
    requires Is(q, xs) && |xs| > 1 && Fresh(q, xs, ys) && i < |ys|
    ensures Long(0, Pop(q, NULL, NULL, false), ys[i])
  {
    var n := |xs| - 1;
    assert [xs][0] == xs && Chain(q.links, xs) && Placed(q.links, xs, 0) && Placed(q.links, xs, n);
    assert (xs + ys)[|xs| + i] == ys[i] && (xs + ys)[0] == xs[0] && (xs + ys)[1] == xs[1] && (xs + ys)[n] == xs[n];
  }

  lemma NoDupParts(xs: seq<nat>, ys: seq<nat>)
    requires NoDup(xs + ys) && xs != []
    ensures NoDup(ys) && NoDup(xs[1..] + ys)
  {
    forall i, j | 0 <= i < j < |ys|
      ensures ys[i] != ys[j]
    {
      assert (xs + ys)[|xs| + i] == ys[i] && (xs + ys)[|xs| + j] == ys[j];
    }
    assert xs[1..] + ys == (xs + ys)[1..];
  }

  lemma PopSizes(q: Queue, xs: seq<nat>)
    requires Is(q, xs) && xs != []
    ensures |PopAll(q).q.links.next| == |q.links.next|
  {
    hide Step;
    assert [xs][0] == xs && Chain(q.links, xs) && Placed(q.links, xs, 0);
    if |xs| > 1 { assert Placed(q.links, xs, 1); }
    PopFields(q, xs[0]);
  }

  // ----- with one node -----

  /** Statements after list_remove's first three leave the `prev` of every other node alone. */
  lemma {:induction false} RestKeepsPrev(n: nat, s: Pop, y: nat)
    requires n >= 4 && s.target != y
    ensures Get(Rest(n, s).q.links.prev, y) == Get(s.q.links.prev, y)
    decreases LAST - n
  {
    if n < LAST { RestKeepsPrev(n + 1, Step(n, s), y); }
  }

  /** The first node pushed names the last one before it; later pushes do not change that. */
  lemma {:induction false} FirstPushed(q: Queue, y: nat, ys: seq<nat>)
    requires WellSized(q.links) && IsNode(q.links, y) && q.size > 0 && y !in ys
    ensures Get(PushAll(Push(q, y), ys).links.prev, y) == q.back
    decreases |ys|
  {
    LaterPushes(Push(q, y), y, ys);
  }

  lemma {:induction false} LaterPushes(q: Queue, y: nat, ys: seq<nat>)
    requires y !in ys
    ensures Get(PushAll(q, ys).links.prev, y) == Get(q.links.prev, y)
    ensures PushAll(q, ys).size == if ys == [] then q.size else if q.size == 0 then |ys| else q.size + |ys|
    decreases |ys|
  {
    if ys != [] { LaterPushes(Push(q, ys[0]), y, ys[1..]); }
  }

  /** The first statements of a pop of one node. */
  lemma OneFirst(n: nat, q: Queue, x: nat)
    requires n <= LAST && Is(q, [x])
    ensures IsNode(q.links, x) && q.front == x && First(n, q).target == (if n < 2 then NULL else x)
    ensures n <= 8 ==> First(n, q).q == q.(front := if n < 8 then x else NULL)
    ensures n >= 9 ==> First(n, q).q == Queue(q.links, NULL, if n < 11 then x else NULL, 0)
    ensures First(n, q).temp == NULL && (First(n, q).zero <==> n >= 10)
  {
    assert [[x]][0] == [x] && Chain(q.links, [x]) && Placed(q.links, [x], 0);
    var l := q.links;
    assert l.next[x := NULL] == l.next && l.prev[x := NULL] == l.prev;
  }

  /** Pushed before list_remove reads `next`, ys go the way of a pop that comes after them. */
  lemma OneEarly(n: nat, q: Queue, x: nat, ys: seq<nat>)
    requires n <= 3 && Is(q, [x]) && Fresh(q, [x], ys)
    ensures Split(n, q, ys).target == x && Is(Split(n, q, ys).q, ys)
  {
    hide Is, Rest, Push;
    OneFirst(n, q, x);
    var r := PushAll(q, ys);
    PushAllIs(q, [x], ys);
    PopIs(r, [x] + ys);
    assert ([x] + ys)[1..] == ys;
    EarlyFirst(n, r, x, [x] + ys);
    RestFirst(n, r);
  }

  lemma EarlyFirst(n: nat, q: Queue, x: nat, xs: seq<nat>)
    requires n <= 3 && Is(q, xs) && xs != [] && xs[0] == x
    ensures First(n, q) == Pop(q, if n < 2 then NULL else x, NULL, false)
  {
    assert [xs][0] == xs && Chain(q.links, xs) && Placed(q.links, xs, 0);
  }

  /** Pushed once the size is 0, ys find an empty queue; only `back` is still to be set. */
  lemma OneLate(n: nat, q: Queue, x: nat, ys: seq<nat>)
    requires 9 <= n <= LAST && Is(q, [x]) && Fresh(q, [x], ys) && ys != []
    ensures Split(n, q, ys).target == x
    ensures Is(Split(n, q, ys).q, ys) <==> n != 10
  {
    hide Is, Push;
    OneFirst(n, q, x);
    PopIs(q, [x]);
    var empty := Queue(q.links, NULL, NULL, 0);
    var s := First(n, q);
    assert Push(s.q, ys[0]) == Push(empty, ys[0]) by { PushEmpty(q.links, s.q.back, ys[0]); }
    assert [x][1..] == [];
    NoDupParts([x], ys);
    assert [x][1..] + ys == ys;
    assert [] + ys == ys;
    PushAllIs(empty, [], ys);
    LaterPushes(empty, x, []);
    var t := s.(q := PushAll(s.q, ys));
    assert t.q == PushAll(empty, ys);
    IsSized(t.q, ys);
    LateRest(n, t);
  }

  lemma PushEmpty(l: Links, back: int, y: nat)
    ensures Push(Queue(l, NULL, back, 0), y) == Push(Queue(l, NULL, NULL, 0), y)
  {
  }

  lemma IsSized(q: Queue, xs: seq<nat>)
    requires Is(q, xs)
    ensures q.size == |xs| && (xs != [] ==> q.back != NULL && !Is(q.(back := NULL), xs))
  {
  }

  lemma LateRest(n: nat, t: Pop)
    requires 9 <= n <= LAST && (t.zero <==> n >= 10) && t.q.size != 0
    ensures Rest(n, t).target == t.target
    ensures Rest(n, t).q == if n == 10 then t.q.(back := NULL) else t.q
  {
  }

  /** Pushed in between, the first of ys is linked behind the node that leaves, and keeps naming it. */
  lemma OneBetween(n: nat, q: Queue, x: nat, ys: seq<nat>)
    requires 4 <= n <= 8 && Is(q, [x]) && Fresh(q, [x], ys) && ys != []
    ensures Split(n, q, ys).target == x
    ensures Get(Split(n, q, ys).q.links.prev, ys[0]) == x && !Is(Split(n, q, ys).q, ys)
  {
    hide Push;
    OneFirst(n, q, x);
    var s := First(n, q);
    NoDupParts([x], ys);
    assert ([x] + ys)[0] == x && ([x] + ys)[1] == ys[0];
    assert forall i :: 0 <= i < |ys[1..]| ==> ys[1..][i] == ys[i + 1] != ys[0];
    FirstPushed(s.q, ys[0], ys[1..]);
    var t := s.(q := PushAll(s.q, ys));
    RestKeepsPrev(n, t, ys[0]);
    RestTarget(n, t);
    if Is(Split(n, q, ys).q, ys) { NoneBefore(Split(n, q, ys).q, ys); }
  }

  lemma NoneBefore(q: Queue, xs: seq<nat>)
    requires Is(q, xs) && xs != []
    ensures Get(q.links.prev, xs[0]) == NULL
  {
    assert [xs][0] == xs && Chain(q.links, xs) && Placed(q.links, xs, 0);
  }

  lemma {:induction false} RestTarget(n: nat, s: Pop)
    requires n >= 2
    ensures Rest(n, s).target == s.target
    decreases LAST - n
  {
    if n < LAST { RestTarget(n + 1, Step(n, s)); }
  }

  /** A pop into which other threads' pushes come before statement n always returns the first node.
      It leaves the queue consistent, with the rest and what was pushed, exactly if there was more
      than one node, or nothing is pushed, or the pushes come before list_remove has looked at
      `next`, between the decrement of the size and its test, or after all. */
  lemma SplitExact(n: nat, q: Queue, xs: seq<nat>, ys: seq<nat>)
    requires n <= LAST && Is(q, xs) && xs != [] && Fresh(q, xs, ys)
    ensures Split(n, q, ys).target == xs[0]
    ensures Is(Split(n, q, ys).q, xs[1..] + ys) <==> |xs| > 1 || ys == [] || n <= 3 || n == 9 || n == LAST
  {
    hide Is, Rest, First, Push, Split;
    if |xs| > 1 {
      LongSplit(n, q, xs, ys);
    } else {
      var x := xs[0];
      assert xs == [x] && xs[1..] + ys == ys;
      if ys == [] {
        NothingPushed(n, q);
        PopIs(q, xs);
      } else if n <= 3 {
        OneEarly(n, q, x, ys);
      } else if n <= 8 {
        OneBetween(n, q, x, ys);
      } else {
        OneLate(n, q, x, ys);
      }
    }
  }

  lemma NothingPushed(n: nat, q: Queue)
    requires n <= LAST
    ensures Split(n, q, []) == PopAll(q)
  {
    RestFirst(n, q);
  }
}
