/** queue_push of lib/template/queue.c, statement by statement.  kill_thread pushes on the dead queue
    with the timer on, so that schedule can come in, and other threads then push as well. */
module SplitPush {
  import opened Machine
  import opened LinkedNodes
  import opened SplitPop

  /** The variables of queue_push: what its test found, and the argument of list_add. */
  datatype Adding = Adding(q: Queue, empty: bool, behind: int)

  const END: nat := 7

  /** The statements of queue_push of x, with those of list_add in it. */
  function PushStep(pc: nat, s: Adding, x: nat): Adding {
    var l := s.q.links;
    match pc
    case 0 => s.(empty := s.q.size == 0)
    case 1 => if s.empty then s.(q := s.q.(back := x)) else s.(behind := s.q.back)
    case 2 =>
      if s.empty then s.(q := s.q.(front := x)) else s.(q := s.q.(links := l.(next := Put(l.next, x, NULL))))
    case 3 => if s.empty then s else s.(q := s.q.(links := l.(prev := Put(l.prev, x, s.behind))))
    case 4 => if s.empty then s else s.(q := s.q.(links := l.(next := Put(l.next, s.behind, x))))
    case 5 => if s.empty then s else s.(q := s.q.(back := x))
    case 6 => s.(q := s.q.(size := s.q.size + 1))
    case _ => s
  }

  function Begun(n: nat, q: Queue, x: nat): Adding {
    if n == 0 then Adding(q, false, NULL) else PushStep(n - 1, Begun(n - 1, q, x), x)
  }

  function Ended(n: nat, s: Adding, x: nat): Adding
    decreases END - n
  {
    if n >= END then s else Ended(n + 1, PushStep(n, s, x), x)
  }

  /** x is pushed, and before statement n others push ys. */
  function Split(n: nat, q: Queue, x: nat, ys: seq<nat>): Queue {
    var s := Begun(n, q, x);
    Ended(n, s.(q := PushAll(s.q, ys)), x).q
  }

  // ----- uninterrupted -----

  lemma Whole(q: Queue, x: nat)
    ensures Ended(0, Begun(0, q, x), x).q == Push(q, x)
  {
  }

  lemma {:induction false} EndedBegun(n: nat, q: Queue, x: nat)
    requires n <= END
    ensures Ended(n, Begun(n, q, x), x).q == Push(q, x)
  {
    hide PushStep;
    if n == 0 { Whole(q, x); } else { EndedBegun(n - 1, q, x); }
  }

  // ----- where pushes in between do no harm -----

  /** Before the place of x is looked up. */
  lemma Early(n: nat, q: Queue, xs: seq<nat>, x: nat, ys: seq<nat>)
    requires Is(q, xs) && Fresh(q, xs, ys + [x]) && (n == 0 || (n == 1 && xs != []))
    ensures Is(Split(n, q, x, ys), xs + ys + [x])
  {
    hide Is, Push, Ended;
    Apart(q, xs, ys, x);
    var r := PushAll(q, ys);
    PushAllIs(q, xs, ys);
    PushIs(r, xs + ys, x);
    Sizes(q, xs);
    Sizes(r, xs + ys);
    assert Begun(0, r, x).q == r && Begun(0, q, x).q == q;
    assert Begun(n, r, x) == Begun(n, q, x).(q := PushAll(Begun(n, q, x).q, ys));
    EndedBegun(n, r, x);
  }

  lemma Sizes(q: Queue, xs: seq<nat>)
    requires Is(q, xs)
    ensures q.size == |xs| && q.front == At(xs, 0) && q.back == At(xs, |xs| - 1)
  {
  }

  lemma Apart(q: Queue, xs: seq<nat>, ys: seq<nat>, x: nat)
    requires Fresh(q, xs, ys + [x])
    ensures Fresh(q, xs, ys) && x !in xs + ys && IsNode(q.links, x)
  {
    var n := |xs + ys|;
    assert xs + (ys + [x]) == (xs + ys) + [x];
    assert ((xs + ys) + [x])[n] == x && (ys + [x])[|ys|] == x;
    forall i | 0 <= i < n
      ensures (xs + ys)[i] != x
    {
      assert ((xs + ys) + [x])[i] == (xs + ys)[i];
    }
    forall i, j | 0 <= i < j < n
      ensures (xs + ys)[i] != (xs + ys)[j]
    {
      assert ((xs + ys) + [x])[i] == (xs + ys)[i] && ((xs + ys) + [x])[j] == (xs + ys)[j];
    }
    forall i | 0 <= i < |ys|
      ensures IsNode(q.links, ys[i])
    {
      assert (ys + [x])[i] == ys[i];
    }
  }

  /** Once x is linked; the count may come after the other pushes, unless the queue was empty. */
  lemma Late(n: nat, q: Queue, xs: seq<nat>, x: nat, ys: seq<nat>)
    requires Is(q, xs) && Fresh(q, xs, [x] + ys) && (n == END || (n == 6 && xs != []))
    ensures Is(Split(n, q, x, ys), xs + [x] + ys)
  {
    hide Is, Push;
    Linked(q, xs, x, ys);
    Sizes(q, xs);
    EndedBegun(END, q, x);
    var r := Push(q, x);
    PushIs(q, xs, x);
    PushAllIs(r, xs + [x], ys);
    if n == 6 {
      Sizes(r, xs + [x]);
      EndedBegun(6, q, x);
      assert Begun(6, q, x).q == r.(size := r.size - 1);
      SizeLater(r, ys);
    }
  }

  lemma Linked(q: Queue, xs: seq<nat>, x: nat, ys: seq<nat>)
    requires Fresh(q, xs, [x] + ys)
    ensures IsNode(q.links, x) && x !in xs && x !in ys && Fresh(Push(q, x), xs + [x], ys)
  {
    var n := |xs|;
    assert xs + ([x] + ys) == (xs + [x]) + ys;
    assert ([x] + ys)[0] == x && (xs + ([x] + ys))[n] == x;
    forall i | 0 <= i < |xs|
      ensures xs[i] != x
    {
      assert (xs + ([x] + ys))[i] == xs[i];
    }
    forall i | 0 <= i < |ys|
      ensures ys[i] != x && IsNode(q.links, ys[i])
    {
      assert (xs + ([x] + ys))[n + 1 + i] == ys[i] && ([x] + ys)[i + 1] == ys[i];
    }
  }

  lemma {:induction false} SizeLater(q: Queue, ys: seq<nat>)
    requires q.size > 1
    ensures var r := PushAll(q.(size := q.size - 1), ys); r.(size := r.size + 1) == PushAll(q, ys)
    decreases |ys|
  {
    if ys != [] {
      SizeLater(Push(q, ys[0]), ys[1..]);
      assert Push(q.(size := q.size - 1), ys[0]) == Push(q, ys[0]).(size := q.size);
    }
  }

  // ----- where they do -----

  lemma IsAt(q: Queue, zs: seq<nat>, i: nat)
    requires Is(q, zs) && i < |zs|
    ensures WellSized(q.links) && IsNode(q.links, zs[i]) && q.size == |zs| && q.front == zs[0]
    ensures q.links.next[zs[i]] == At(zs, i + 1) && q.links.prev[zs[i]] == At(zs, i - 1)
  {
    assert [zs][0] == zs && Chain(q.links, zs) && Placed(q.links, zs, i);
  }

  lemma IsNone(q: Queue, zs: seq<nat>, a: nat)
    requires Is(q, zs) && IsNode(q.links, a) && a !in zs
    ensures WellSized(q.links) && q.links.prev[a] == NULL
  {
    assert !On([zs], a) && Unlinked(q.links, a);
  }

  /** Fields that belong to no list. */
  lemma NoList(q: Queue, a: nat, b: nat, zs: seq<nat>)
    requires WellSized(q.links) && IsNode(q.links, a) && IsNode(q.links, b)
    requires q.links.prev[a] == b && q.links.next[b] != a
    ensures !Is(q, zs)
  {
    hide Is;
    if Is(q, zs) {
      if a in zs {
        var i: nat :| i < |zs| && zs[i] == a;
        IsAt(q, zs, i);
        IsAt(q, zs, i - 1);
      } else {
        IsNone(q, zs, a);
      }
    }
  }

  /** A list that ends too soon. */
  lemma TooShort(q: Queue, x: nat, zs: seq<nat>)
    requires WellSized(q.links) && IsNode(q.links, x) && q.front == x && q.links.next[x] == NULL && q.size > 1
    ensures !Is(q, zs)
  {
    hide Is;
    if Is(q, zs) {
      IsSize(q, zs);
      IsAt(q, zs, 0);
    }
  }

  lemma IsSize(q: Queue, zs: seq<nat>)
    requires Is(q, zs)
    ensures q.size == |zs|
  {
  }

  /** Pushes leave the `next` of a node alone that is neither the last nor one of theirs, and keep
      the fields' lengths; the last names the first of them. */
  lemma {:induction false} NextAfter(q: Queue, ys: seq<nat>, z: nat)
    requires WellSized(q.links) && z !in ys && q.size >= 0
    ensures var r := PushAll(q, ys);
            && WellSized(r.links) && |r.links.next| == |q.links.next|
            && (z != q.back || q.size == 0 ==> Get(r.links.next, z) == Get(q.links.next, z))
            && (z == q.back && q.size != 0 && ys != [] && z < |q.links.next| ==> Get(r.links.next, z) == ys[0])
            && r.front == if q.size == 0 && ys != [] then ys[0] else q.front
    decreases |ys|
  {
    if ys != [] { NextAfter(Push(q, ys[0]), ys[1..], z); }
  }

  // ----- what becomes of a push that is split -----

  /** Where x goes behind a node that is not the last any more. */
  lemma Between(n: nat, q: Queue, xs: seq<nat>, x: nat, ys: seq<nat>, zs: seq<nat>)
    requires 2 <= n <= 5 && xs != [] && ys != [] && Is(q, xs) && Fresh(q, xs, [x] + ys)
    ensures !Is(Split(n, q, x, ys), zs)
  {
    hide Is, Push;
    Linked(q, xs, x, ys);
    NotAmong(q, xs, x, ys);
    IsAt(q, xs, |xs| - 1);
    IsBack(q, xs);
    var b, y := xs[|xs| - 1], ys[0];
    BegunFields(n, q, x);
    var s := Begun(n, q, x);
    NextAfter(s.q, ys, b);
    FirstPushed(s.q, y, ys[1..]);
    LaterPushes(s.q, x, ys);
    EndedFields(n, s.(q := PushAll(s.q, ys)), x);
    var f := Split(n, q, x, ys);
    if n <= 4 {
      NoList(f, y, b, zs);
    } else {
      NoList(f, x, b, zs);
    }
  }

  /** After the test and the argument of list_add. */
  lemma BegunFields(n: nat, q: Queue, x: nat)
    requires 2 <= n <= 5 && q.size > 0 && WellSized(q.links)
    ensures var s := Begun(n, q, x); var l := q.links;
            && !s.empty && s.behind == q.back && s.q.back == q.back && s.q.size == q.size
            && s.q.links.prev == (if n < 4 then l.prev else Put(l.prev, x, q.back))
            && s.q.links.next == if n < 3 then l.next
                                 else if n < 5 then Put(l.next, x, NULL)
                                 else Put(Put(l.next, x, NULL), q.back, x)
  {
    assert Begun(1, q, x) == Adding(q, false, NULL);
    assert Begun(2, q, x) == Adding(q, false, q.back);
    assert Begun(3, q, x) == PushStep(2, Begun(2, q, x), x) && Begun(4, q, x) == PushStep(3, Begun(3, q, x), x);
    assert Begun(5, q, x) == PushStep(4, Begun(4, q, x), x);
  }

  lemma EndedFields(n: nat, s: Adding, x: nat)
    requires 2 <= n <= 5 && !s.empty
    ensures var l := Ended(n, s, x).q.links;
            && l.prev == (if n < 4 then Put(s.q.links.prev, x, s.behind) else s.q.links.prev)
            && l.next == if n < 3 then Put(Put(s.q.links.next, x, NULL), s.behind, x)
                         else if n < 5 then Put(s.q.links.next, s.behind, x)
                         else s.q.links.next
  {
  }

  lemma IsBack(q: Queue, xs: seq<nat>)
    requires Is(q, xs) && xs != []
    ensures q.back == xs[|xs| - 1] && q.size == |xs|
  {
  }

  lemma NotAmong(q: Queue, xs: seq<nat>, x: nat, ys: seq<nat>)
    requires Fresh(q, xs, [x] + ys) && xs != [] && ys != []
    ensures var b := xs[|xs| - 1]; b != x && b !in ys && ys[0] != x && ys[0] !in ys[1..] && IsNode(q.links, ys[0])
  {
    var n, all := |xs|, xs + ([x] + ys);
    assert all[n - 1] == xs[n - 1] && all[n] == x && ([x] + ys)[1] == ys[0] && all[n + 1] == ys[0];
    forall i | 0 <= i < |ys|
      ensures ys[i] != xs[n - 1] && (i > 0 ==> ys[i] != ys[0])
    {
      assert all[n + 1 + i] == ys[i] && all[n + 1] == ys[0];
    }
    var rest := ys[1..];
    forall i | 0 <= i < |rest|
      ensures rest[i] != ys[0]
    {
      assert rest[i] == ys[i + 1];
    }
  }

  /** In an empty queue, where x overwrites the ends that the others have set. */
  lemma Overwritten(n: nat, q: Queue, x: nat, ys: seq<nat>, zs: seq<nat>)
    requires 1 <= n <= 2 && ys != [] && Is(q, []) && Fresh(q, [], [x] + ys)
    ensures !Is(Split(n, q, x, ys), zs)
  {
    hide Is, Push;
    Linked(q, [], x, ys);
    Sizes(q, []);
    Alone(q, x);
    var s := Begun(n, q, x);
    EmptyBegun(n, q, x);
    NextAfter(s.q, ys, x);
    LaterPushes(s.q, x, ys);
    var t := s.(q := PushAll(s.q, ys));
    assert Ended(n, t, x).q == t.q.(front := x, back := if n == 1 then x else t.q.back, size := t.q.size + 1);
    TooShort(Split(n, q, x, ys), x, zs);
  }

  lemma Alone(q: Queue, x: nat)
    requires Is(q, []) && IsNode(q.links, x)
    ensures WellSized(q.links) && q.links.next[x] == NULL && q.links.prev[x] == NULL
  {
    assert Unlinked(q.links, x);
  }

  lemma EmptyBegun(n: nat, q: Queue, x: nat)
    requires q.size == 0
    ensures n == 1 ==> Begun(n, q, x) == Adding(q, true, NULL)
    ensures n == 2 ==> Begun(n, q, x) == Adding(q.(back := x), true, NULL)
    ensures 3 <= n <= 6 ==> Begun(n, q, x) == Adding(q.(back := x, front := x), true, NULL)
  {
    assert Begun(1, q, x) == Adding(q, true, NULL);
    assert Begun(2, q, x) == Adding(q.(back := x), true, NULL);
    assert Begun(4, q, x) == Begun(3, q, x) == Adding(q.(back := x, front := x), true, NULL);
  }

  /** In an empty queue, where the others overwrite x before it counts. */
  lemma Forgotten(q: Queue, x: nat, ys: seq<nat>, zs: seq<nat>)
    requires ys != [] && Is(q, []) && Fresh(q, [], [x] + ys)
    ensures !Is(Split(6, q, x, ys), zs)
  {
    hide Is, Push;
    Linked(q, [], x, ys);
    Sizes(q, []);
    EmptyBegun(6, q, x);
    var r := PushAll(q, ys);
    OnlyThey(q, x, ys);
    PushAllIs(q, [], ys);
    assert [] + ys == ys;
    FirstAnyway(q, x, ys);
    var f := Split(6, q, x, ys);
    assert f == r.(size := r.size + 1);
    if Is(f, zs) {
      IsSize(r, ys);
      IsSize(f, zs);
      SameNodes(r, f, ys, zs, |ys| - 1);
      IsAt(r, ys, |ys| - 1);
      IsAt(f, zs, |ys| - 1);
    }
  }

  lemma OnlyThey(q: Queue, x: nat, ys: seq<nat>)
    requires Fresh(q, [], [x] + ys)
    ensures Fresh(q, [], ys)
  {
    var all := [x] + ys;
    assert [] + all == all && [] + ys == ys && all[1..] == ys;
    forall i | 0 <= i < |ys|
      ensures IsNode(q.links, ys[i])
    {
      assert all[i + 1] == ys[i];
    }
  }

  lemma FirstAnyway(q: Queue, x: nat, ys: seq<nat>)
    requires q.size == 0 && ys != []
    ensures PushAll(q.(back := x, front := x), ys) == PushAll(q, ys)
  {
    assert Push(q.(back := x, front := x), ys[0]) == Push(q, ys[0]);
  }

  /** Two lists from the same front along the same links. */
  lemma {:induction false} SameNodes(q: Queue, f: Queue, ys: seq<nat>, zs: seq<nat>, i: nat)
    requires Is(q, ys) && Is(f, zs) && f.links == q.links && f.front == q.front && i < |ys| && i < |zs|
    ensures ys[i] == zs[i]
    decreases i
  {
    hide Is;
    IsAt(q, ys, 0);
    IsAt(f, zs, 0);
    if i > 0 {
      SameNodes(q, f, ys, zs, i - 1);
      IsAt(q, ys, i - 1);
      IsAt(f, zs, i - 1);
    }
  }

  /** A push on a queue of xs into which other threads' pushes come before its statement n: a queue is
      left exactly if nothing is pushed, or the pushes come before all, or after all, or, where the
      queue was not empty, between the test and the call of list_add, or before the count.  It then
      holds them all, in the order in which they were linked. */
  lemma PushSplitExact(n: nat, q: Queue, xs: seq<nat>, x: nat, ys: seq<nat>)
    requires n <= END && Is(q, xs) && Fresh(q, xs, [x] + ys)
    ensures var f := Split(n, q, x, ys); var early := n == 0 || (n == 1 && xs != []);
            var late := n == END || (n == 6 && xs != []);
            && ((exists zs :: Is(f, zs)) <==> ys == [] || early || late)
            && (early ==> Is(f, xs + ys + [x]))
            && (late || ys == [] ==> Is(f, xs + [x] + ys))
  {
    hide Is, Split, Push;
    LastToo(q, xs, x, ys);
    if n == 0 || (n == 1 && xs != []) { Early(n, q, xs, x, ys); }
    if n == END || (n == 6 && xs != []) { Late(n, q, xs, x, ys); }
    if ys == [] {
      Alike(n, q, x);
      Late(END, q, xs, x, ys);
    } else {
      forall zs
        ensures xs != [] && 2 <= n <= 5 ==> !Is(Split(n, q, x, ys), zs)
        ensures xs == [] && 1 <= n <= 6 ==> !Is(Split(n, q, x, ys), zs)
      {
        NoQueue(n, q, xs, x, ys, zs);
      }
    }
  }

  lemma LastToo(q: Queue, xs: seq<nat>, x: nat, ys: seq<nat>)
    requires Fresh(q, xs, [x] + ys)
    ensures Fresh(q, xs, ys + [x])
  {
    var n, m, all, other := |xs|, |ys|, xs + ([x] + ys), xs + (ys + [x]);
    forall i | 0 <= i < |other|
      ensures other[i] == all[if i < n then i else if i < n + m then i + 1 else n]
    {
    }
    forall i | 0 <= i < m + 1
      ensures IsNode(q.links, (ys + [x])[i])
    {
      assert (ys + [x])[i] == ([x] + ys)[if i < m then i + 1 else 0];
    }
  }

  lemma Alike(n: nat, q: Queue, x: nat)
    requires n <= END
    ensures Split(n, q, x, []) == Split(END, q, x, [])
  {
    EndedBegun(n, q, x);
    EndedBegun(END, q, x);
  }

  lemma NoQueue(n: nat, q: Queue, xs: seq<nat>, x: nat, ys: seq<nat>, zs: seq<nat>)
    requires ys != [] && Is(q, xs) && Fresh(q, xs, [x] + ys)
    ensures xs != [] && 2 <= n <= 5 ==> !Is(Split(n, q, x, ys), zs)
    ensures xs == [] && 1 <= n <= 6 ==> !Is(Split(n, q, x, ys), zs)
  {
    hide Is, Split;
    if xs != [] && 2 <= n <= 5 {
      Between(n, q, xs, x, ys, zs);
    } else if xs == [] && 1 <= n <= 2 {
      Overwritten(n, q, x, ys, zs);
    } else if xs == [] && 3 <= n <= 6 {
      Sizes(q, xs);
      Skipped(n, q, x, ys);
      Forgotten(q, x, ys, zs);
    }
  }

  /** For an empty queue these statements do nothing. */
  lemma Skipped(n: nat, q: Queue, x: nat, ys: seq<nat>)
    requires 3 <= n <= 6 && q.size == 0
    ensures Split(n, q, x, ys) == Split(6, q, x, ys)
  {
    hide PushAll;
    EmptyBegun(n, q, x);
    EmptyBegun(6, q, x);
    var s := Begun(6, q, x);
    var t := s.(q := PushAll(s.q, ys));
    assert PushStep(3, t, x) == PushStep(4, t, x) == PushStep(5, t, x) == t;
    assert Ended(5, t, x) == Ended(6, t, x) && Ended(4, t, x) == Ended(5, t, x) && Ended(3, t, x) == Ended(4, t, x);
  }
}
