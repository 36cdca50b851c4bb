/** The intrusive doubly linked nodes of lib/template/list.c.  A node is named by its index
    in the array of structures that embed one; NULL is the null pointer. */
module LinkedNodes {
  import opened Machine

  /** The `prev` and `next` fields of every node. */
  datatype Links = Links(prev: seq<int>, next: seq<int>)

  predicate IsNode(l: Links, x: int) {
    0 <= x < |l.next|
  }

  predicate WellSized(l: Links) {
    |l.prev| == |l.next|
  }

  /** What `list_add` leaves in the link fields. */
  function AddLinks(l: Links, x: nat, p: int, n: int): (r: Links)
    requires WellSized(l) && IsNode(l, x)
    requires (p == NULL || IsNode(l, p)) && (n == NULL || IsNode(l, n))
    ensures WellSized(r) && |r.next| == |l.next|
  {
    var prev, next := l.prev[x := p], l.next[x := n];
    Links(if n == NULL then prev else prev[n := x], if p == NULL then next else next[p := x])
  }

  /** What `list_remove` leaves in the link fields. */
  function RemoveLinks(l: Links, x: nat): (r: Links)
    requires WellSized(l) && IsNode(l, x)
    requires l.prev[x] == NULL || IsNode(l, l.prev[x])
    requires l.next[x] == NULL || IsNode(l, l.next[x])
    ensures WellSized(r) && |r.next| == |l.next|
  {
    var p, n := l.prev[x], l.next[x];
    var next := if p == NULL then l.next else l.next[p := n];
    var prev := if n == NULL then l.prev else l.prev[n := p];
    Links(prev[x := NULL], next[x := NULL])
  }

  // ----- what the links represent -----

  /** The element at position i, or NULL beyond either end. */
  function At(xs: seq<nat>, i: int): int {
    if 0 <= i < |xs| then xs[i] else NULL
  }

  /** The node at position i of xs is linked to its neighbours in xs. */
  ghost predicate Placed(l: Links, xs: seq<nat>, i: nat)
    requires WellSized(l) && i < |xs|
  {
    IsNode(l, xs[i]) && l.next[xs[i]] == At(xs, i + 1) && l.prev[xs[i]] == At(xs, i - 1)
  }

  /** xs is a doubly linked list, ended by NULL on both sides. */
  ghost predicate Chain(l: Links, xs: seq<nat>)
    requires WellSized(l)
  {
    forall i: nat :: i < |xs| ==> Placed(l, xs, i)
  }

  ghost predicate NoDup(xs: seq<nat>) {
    forall i, j :: 0 <= i < j < |xs| ==> xs[i] != xs[j]
  }

  /** No node is on two lists. */
  ghost predicate Disjoint(lists: seq<seq<nat>>) {
    forall k, k', x :: 0 <= k < |lists| && 0 <= k' < |lists| && x in lists[k] && x in lists[k'] ==> k == k'
  }

  ghost predicate On(lists: seq<seq<nat>>, x: int) {
    exists k :: 0 <= k < |lists| && x in lists[k]
  }

  ghost predicate Unlinked(l: Links, x: nat)
    requires WellSized(l) && IsNode(l, x)
  {
    l.next[x] == NULL && l.prev[x] == NULL
  }

  /** The links hold these lists. */
  ghost predicate Linked(l: Links, lists: seq<seq<nat>>) {
    && WellSized(l)
    && (forall k :: 0 <= k < |lists| ==> Chain(l, lists[k]) && NoDup(lists[k]))
    && Disjoint(lists)
  }

  /** The links hold exactly these lists: every node on no list has null links. */
  ghost predicate Holds(l: Links, lists: seq<seq<nat>>) {
    Linked(l, lists) && forall x: nat :: IsNode(l, x) && !On(lists, x) ==> Unlinked(l, x)
  }

  /** xs with its first occurrence of x taken out, or xs itself. */
  function Without(xs: seq<nat>, x: nat): (r: seq<nat>) {
    if xs == [] then []
    else if xs[0] == x then xs[1..]
    else [xs[0]] + Without(xs[1..], x)
  }

  lemma {:induction false} WithoutAt(xs: seq<nat>, j: nat)
    requires j < |xs| && forall i :: 0 <= i < j ==> xs[i] != xs[j]
    ensures Without(xs, xs[j]) == xs[..j] + xs[j + 1..]
  {
    if j > 0 {
      assert xs[1..][j - 1] == xs[j];
      WithoutAt(xs[1..], j - 1);
      assert xs[..j] == [xs[0]] + xs[1..][..j - 1];
      assert xs[1..][j..] == xs[j + 1..];
    }
  }

  lemma {:induction false} WithoutAbsent(xs: seq<nat>, x: nat)
    requires x !in xs
    ensures Without(xs, x) == xs
  {
    if xs != [] {
      WithoutAbsent(xs[1..], x);
    }
  }

  /** ys is xs without what is at position k, which is x. */
  predicate CutAt(xs: seq<nat>, x: nat, ys: seq<nat>, k: nat) {
    k < |xs| && xs[k] == x && ys == xs[..k] + xs[k + 1..]
  }

  lemma WithoutCuts(xs: seq<nat>, x: nat)
    requires x in xs && NoDup(xs)
    ensures exists k: nat :: CutAt(xs, x, Without(xs, x), k)
  {
    hide Without;
    var k: nat :| k < |xs| && xs[k] == x;
    WithoutAt(xs, k);
    assert CutAt(xs, x, Without(xs, x), k);
  }

  lemma NoDupPush(xs: seq<nat>, x: nat)
    requires NoDup(xs) && x !in xs
    ensures NoDup([x] + xs)
  {
    forall i, j | 0 <= i < j < |[x] + xs|
      ensures ([x] + xs)[i] != ([x] + xs)[j]
    {
      assert xs[j - 1] in xs;
      assert i > 0 ==> xs[i - 1] != xs[j - 1];
    }
  }

  lemma NoDupAppend(xs: seq<nat>, x: nat)
    requires NoDup(xs) && x !in xs
    ensures NoDup(xs + [x])
  {
  }

  lemma {:induction false} WithoutMembers(xs: seq<nat>, x: nat)
    requires NoDup(xs)
    ensures NoDup(Without(xs, x))
    ensures forall y :: y in Without(xs, x) <==> y in xs && y != x
  {
    if xs != [] {
      var rest := Without(xs[1..], x);
      WithoutMembers(xs[1..], x);
      assert xs == [xs[0]] + xs[1..];
      assert xs[0] !in xs[1..] by {
        forall i | 0 <= i < |xs[1..]| ensures xs[1..][i] != xs[0] { assert xs[1..][i] == xs[i + 1]; }
      }
      assert xs[0] != x ==> Without(xs, x) == [xs[0]] + rest && xs[0] !in rest;
    }
  }

  /** Appending a node that is on no list. */
  lemma Append(lists: seq<seq<nat>>, k: nat, x: nat)
    requires Disjoint(lists) && k < |lists| && !On(lists, x)
    requires forall i: nat :: i < |lists| ==> NoDup(lists[i])
    ensures var lists' := lists[k := lists[k] + [x]];
            && Disjoint(lists') && (forall i: nat :: i < |lists| ==> NoDup(lists'[i]))
            && forall y: nat :: On(lists', y) <==> y == x || On(lists, y)
  {
    var lists' := lists[k := lists[k] + [x]];
    forall i: nat | i < |lists|
      ensures NoDup(lists'[i]) && x !in lists[i]
    {
      assert NoDup(lists[i]);
      if i == k { NoDupAppend(lists[k], x); }
    }
    forall y: nat
      ensures On(lists', y) <==> y == x || On(lists, y)
    {
      if On(lists, y) {
        var i :| 0 <= i < |lists| && y in lists[i];
        assert y in lists'[i];
      }
      assert x in lists'[k];
    }
  }

  /** Taking a node off its list. */
  lemma TakeOff(lists: seq<seq<nat>>, k: nat, x: nat)
    requires Disjoint(lists) && k < |lists| && x in lists[k]
    requires forall i: nat :: i < |lists| ==> NoDup(lists[i])
    ensures var lists' := lists[k := Without(lists[k], x)];
            && Disjoint(lists') && (forall i: nat :: i < |lists| ==> NoDup(lists'[i]))
            && (forall i: nat, y: nat :: i < |lists| ==> (y in lists'[i] <==> y != x && y in lists[i]))
            && forall y: nat :: On(lists', y) <==> y != x && On(lists, y)
  {
    var lists' := lists[k := Without(lists[k], x)];
    assert NoDup(lists[k]);
    WithoutMembers(lists[k], x);
    forall i: nat | i < |lists|
      ensures NoDup(lists'[i])
    {
      assert NoDup(lists[i]);
    }
    forall i: nat, y: nat | i < |lists|
      ensures y in lists'[i] <==> y != x && y in lists[i]
    {
      if i != k { assert x in lists[k]; }
    }
    forall y: nat
      ensures On(lists', y) <==> y != x && On(lists, y)
    {
      if y != x && On(lists, y) {
        var i :| 0 <= i < |lists| && y in lists[i];
        assert y in lists'[i];
      }
    }
  }

  /** Changing the links of one list, and of nothing on the others. */
  lemma Replace(l: Links, l': Links, lists: seq<seq<nat>>, k: nat, ys: seq<nat>)
    requires Linked(l, lists) && k < |lists| && WellSized(l') && |l'.next| == |l.next|
    requires Chain(l', ys) && NoDup(ys)
    requires forall y :: y in ys && y !in lists[k] ==> !On(lists, y)
    requires forall y: nat :: IsNode(l, y) && y !in ys && y !in lists[k] ==>
               l'.next[y] == l.next[y] && l'.prev[y] == l.prev[y]
    requires forall y: nat :: IsNode(l, y) && y !in ys && y in lists[k] ==> Unlinked(l', y)
    ensures Linked(l', lists[k := ys])
    ensures Holds(l, lists) ==> Holds(l', lists[k := ys])
  {
    var lists' := lists[k := ys];
    forall a | 0 <= a < |lists'|
      ensures Chain(l', lists'[a]) && NoDup(lists'[a])
    {
      if a != k {
        var xs := lists[a];
        assert Chain(l, xs);
        forall i | 0 <= i < |xs|
          ensures Placed(l', xs, i)
        {
          assert xs[i] in lists[a] && Placed(l, xs, i);
        }
      }
    }
    forall x: nat | IsNode(l', x) && !On(lists', x) && Holds(l, lists)
      ensures Unlinked(l', x)
    {
      assert x !in lists'[k];
      if x !in lists[k] {
        forall a | 0 <= a < |lists|
          ensures x !in lists[a]
        {
          assert x !in lists'[a];
        }
        assert Unlinked(l, x);
      }
    }
  }

  /** Initialising a node that is on no list. */
  lemma InitUnlisted(l: Links, lists: seq<seq<nat>>, x: nat)
    requires Linked(l, lists) && IsNode(l, x) && !On(lists, x)
    ensures Linked(Links(l.prev[x := NULL], l.next[x := NULL]), lists)
  {
    var l' := Links(l.prev[x := NULL], l.next[x := NULL]);
    forall k | 0 <= k < |lists|
      ensures Chain(l', lists[k])
    {
      assert Chain(l, lists[k]);
      forall i: nat | i < |lists[k]|
        ensures Placed(l', lists[k], i)
      {
        assert Placed(l, lists[k], i) && lists[k][i] in lists[k];
      }
    }
  }

  /** `list_add(x, NULL, head)`: the LIFO insertion. */
  lemma PushFront(l: Links, lists: seq<seq<nat>>, k: nat, x: nat)
    requires Linked(l, lists) && k < |lists| && IsNode(l, x) && !On(lists, x)
    ensures At(lists[k], 0) == NULL || IsNode(l, At(lists[k], 0))
    ensures var l' := AddLinks(l, x, NULL, At(lists[k], 0)); var lists' := lists[k := [x] + lists[k]];
            Linked(l', lists') && (Holds(l, lists) ==> Holds(l', lists'))
  {
    var xs := lists[k];
    assert Chain(l, xs) && NoDup(xs) && x !in xs;
    if xs != [] { assert Placed(l, xs, 0); }
    var l' := AddLinks(l, x, NULL, At(xs, 0));
    var ys := [x] + xs;
    forall i | 0 <= i < |ys|
      ensures Placed(l', ys, i)
    {
      if i > 0 {
        assert ys[i] == xs[i - 1] && xs[i - 1] in xs && Placed(l, xs, i - 1);
      }
    }
    Replace(l, l', lists, k, ys);
  }

  /** `list_add(x, back, NULL)`: the insertion at the tail. */
  lemma PushBack(l: Links, lists: seq<seq<nat>>, k: nat, x: nat)
    requires Linked(l, lists) && k < |lists| && IsNode(l, x) && !On(lists, x)
    ensures At(lists[k], |lists[k]| - 1) == NULL || IsNode(l, At(lists[k], |lists[k]| - 1))
    ensures var l' := AddLinks(l, x, At(lists[k], |lists[k]| - 1), NULL); var lists' := lists[k := lists[k] + [x]];
            Linked(l', lists') && (Holds(l, lists) ==> Holds(l', lists'))
  {
    var xs := lists[k];
    assert Chain(l, xs) && NoDup(xs) && x !in xs;
    var e := |xs| - 1;
    if e >= 0 { assert Placed(l, xs, e); }
    var l' := AddLinks(l, x, At(xs, e), NULL);
    var ys := xs + [x];
    forall i | 0 <= i < |ys|
      ensures Placed(l', ys, i)
    {
      if i < e {
        assert xs[i] in xs && xs[i] != x && xs[i] != xs[e];
        assert ys[i] == xs[i] && ys[i + 1] == xs[i + 1] && Placed(l, xs, i);
      } else if i == e {
        assert xs[e] in xs && xs[e] != x && ys[e] == xs[e] && ys[e + 1] == x;
      } else {
        assert ys[i] == x && At(ys, i - 1) == At(xs, e);
      }
    }
    Replace(l, l', lists, k, ys);
  }

  /** `list_remove` of a listed node closes the gap it leaves. */
  lemma TakeOut(l: Links, lists: seq<seq<nat>>, k: nat, x: nat)
    requires Linked(l, lists) && k < |lists| && x in lists[k]
    ensures IsNode(l, x) && l.prev[x] != x && l.next[x] != x
    ensures l.prev[x] == NULL || IsNode(l, l.prev[x])
    ensures l.next[x] == NULL || IsNode(l, l.next[x])
    ensures var l' := RemoveLinks(l, x); var lists' := lists[k := Without(lists[k], x)];
            Linked(l', lists') && (Holds(l, lists) ==> Holds(l', lists'))
  {
    var xs := lists[k];
    var j :| 0 <= j < |xs| && xs[j] == x;
    assert Chain(l, xs) && NoDup(xs);
    assert Placed(l, xs, j);
    var ys := xs[..j] + xs[j + 1..];
    WithoutAt(xs, j);
    WithoutMembers(xs, x);
    var l' := TakeOutChain(l, xs, j);
    forall y | y in xs && y !in ys
      ensures y == x
    {
    }
    Replace(l, l', lists, k, ys);
  }

  /** The effect of `list_remove` on the one list that holds the node. */
  lemma TakeOutChain(l: Links, xs: seq<nat>, j: nat) returns (l': Links)
    requires WellSized(l) && Chain(l, xs) && NoDup(xs) && j < |xs|
    ensures IsNode(l, xs[j]) && l.prev[xs[j]] == At(xs, j - 1) && l.next[xs[j]] == At(xs, j + 1)
    ensures At(xs, j - 1) == NULL || IsNode(l, At(xs, j - 1))
    ensures At(xs, j + 1) == NULL || IsNode(l, At(xs, j + 1))
    ensures l' == RemoveLinks(l, xs[j])
    ensures Chain(l', xs[..j] + xs[j + 1..]) && Unlinked(l', xs[j])
    ensures forall y: nat :: IsNode(l, y) && y !in xs ==> l'.next[y] == l.next[y] && l'.prev[y] == l.prev[y]
  {
    var x := xs[j];
    assert Placed(l, xs, j);
    if j > 0 { assert Placed(l, xs, j - 1); }
    if j + 1 < |xs| { assert Placed(l, xs, j + 1); }
    l' := RemoveLinks(l, x);
    var ys := xs[..j] + xs[j + 1..];
    forall i | 0 <= i < |ys|
      ensures Placed(l', ys, i)
    {
      var o := if i < j then i else i + 1;
      assert ys[i] == xs[o] && xs[o] != x && Placed(l, xs, o);
      if i == j - 1 {
        assert At(ys, i + 1) == At(xs, j + 1) && l'.next[xs[o]] == At(xs, j + 1);
        if j + 1 < |xs| { assert xs[o] != xs[j + 1]; }
        assert l'.prev[xs[o]] == l.prev[xs[o]];
      } else if i == j {
        assert At(ys, i - 1) == At(xs, j - 1) && l'.prev[xs[o]] == At(xs, j - 1);
        if j > 0 { assert xs[o] != xs[j - 1]; }
        assert l'.next[xs[o]] == l.next[xs[o]];
      } else {
        if j > 0 { assert xs[o] != xs[j - 1]; }
        if j + 1 < |xs| { assert xs[o] != xs[j + 1]; }
        assert l'.next[xs[o]] == l.next[xs[o]] && l'.prev[xs[o]] == l.prev[xs[o]];
      }
    }
  }

  /** `list_remove` of a node on no list changes nothing. */
  lemma TakeOutUnlinked(l: Links, lists: seq<seq<nat>>, x: nat)
    requires Holds(l, lists) && IsNode(l, x) && !On(lists, x)
    ensures Unlinked(l, x) && RemoveLinks(l, x) == l
  {
  }

  /** Where the head of a list points after `list_remove` of one of its nodes. */
  lemma HeadAfter(l: Links, lists: seq<seq<nat>>, k: nat, x: nat)
    requires Linked(l, lists) && k < |lists| && x in lists[k]
    ensures IsNode(l, x)
    ensures At(Without(lists[k], x), 0) == if At(lists[k], 0) == x then l.next[x] else At(lists[k], 0)
  {
    TakeOut(l, lists, k, x);
    assert Placed(l, lists[k], 0);
    if lists[k][0] == x { WithoutAt(lists[k], 0); }
  }

  /** `list_remove`, with the re-assignment of the list's head that goes before it. */
  lemma RemoveAny(l: Links, lists: seq<seq<nat>>, k: nat, x: nat)
    requires Holds(l, lists) && k < |lists| && IsNode(l, x) && (x in lists[k] || !On(lists, x))
    ensures WellSized(l) && l.prev[x] != x && l.next[x] != x
    ensures (l.prev[x] == NULL || IsNode(l, l.prev[x])) && (l.next[x] == NULL || IsNode(l, l.next[x]))
    ensures Holds(RemoveLinks(l, x), lists[k := Without(lists[k], x)])
    ensures At(Without(lists[k], x), 0) == if At(lists[k], 0) == x then l.next[x] else At(lists[k], 0)
  {
    var xs := lists[k];
    assert Chain(l, xs) && NoDup(xs);
    if x in xs {
      TakeOut(l, lists, k, x);
      HeadAfter(l, lists, k, x);
    } else {
      TakeOutUnlinked(l, lists, x);
      WithoutAbsent(xs, x);
      assert lists[k := xs] == lists;
    }
  }

  /** The lists determine every link field. */
  lemma LinksDetermined(l: Links, m: Links, lists: seq<seq<nat>>)
    requires Holds(l, lists) && Holds(m, lists) && |l.next| == |m.next|
    ensures l == m
  {
    forall x | IsNode(l, x)
      ensures l.next[x] == m.next[x] && l.prev[x] == m.prev[x]
    {
      if On(lists, x) {
        var k :| 0 <= k < |lists| && x in lists[k];
        var i :| 0 <= i < |lists[k]| && lists[k][i] == x;
        assert Placed(l, lists[k], i) && Placed(m, lists[k], i);
      }
    }
  }

  // ----- arrays not yet initialised to their end -----

  /** The link fields of the first m nodes. */
  function Cut(l: Links, m: nat): (r: Links)
    requires WellSized(l) && m <= |l.next|
    ensures WellSized(r) && |r.next| == m
  {
    Links(l.prev[..m], l.next[..m])
  }

  lemma CutAdd(l: Links, m: nat, x: nat, p: int, n: int)
    requires WellSized(l) && x < m <= |l.next|
    requires (p == NULL || 0 <= p < m) && (n == NULL || 0 <= n < m)
    ensures Cut(AddLinks(l, x, p, n), m) == AddLinks(Cut(l, m), x, p, n)
  {
  }

  /** A node initialised beyond the others joins them unlinked. */
  lemma CutInit(l: Links, m: nat, lists: seq<seq<nat>>)
    requires WellSized(l) && m < |l.next| && Holds(Cut(l, m), lists)
    ensures Holds(Cut(Links(l.prev[m := NULL], l.next[m := NULL]), m + 1), lists)
    ensures !On(lists, m)
  {
    var c := Cut(l, m);
    var c' := Cut(Links(l.prev[m := NULL], l.next[m := NULL]), m + 1);
    assert forall x :: 0 <= x < m ==> c'.next[x] == c.next[x] && c'.prev[x] == c.prev[x];
    forall k | 0 <= k < |lists|
      ensures Chain(c', lists[k]) && m !in lists[k]
    {
      assert Chain(c, lists[k]);
      forall i: nat | i < |lists[k]|
        ensures Placed(c', lists[k], i) && lists[k][i] != m
      {
        assert Placed(c, lists[k], i);
      }
    }
    forall x: nat | IsNode(c', x) && !On(lists, x)
      ensures Unlinked(c', x)
    {
      if x < m { assert Unlinked(c, x); }
    }
  }

  // ----- the code -----

  /** The link fields of one array of structures. */
  class Nodes {
    const prev: array<int>
    const next: array<int>

    ghost predicate Valid() {
      prev != next && prev.Length == next.Length
    }

    ghost function View(): (l: Links)
      reads this, prev, next
      requires Valid()
      ensures WellSized(l) && |l.next| == next.Length
    {
      Links(prev[..], next[..])
    }

    constructor (n: nat)
      ensures Valid() && fresh(prev) && fresh(next) && next.Length == n
    {
      prev := new int[n];
      next := new int[n];
    }

    /** node_init */
    method Init(x: nat)
      requires Valid() && x < next.Length
      modifies prev, next
      ensures View() == Links(old(View()).prev[x := NULL], old(View()).next[x := NULL])
    {
      next[x] := NULL;
      prev[x] := NULL;
    }

    /** list_add */
    method Add(x: nat, p: int, n: int)
      requires Valid() && x < next.Length
      requires p == NULL || 0 <= p < next.Length
      requires n == NULL || 0 <= n < next.Length
      modifies prev, next
      ensures View() == AddLinks(old(View()), x, p, n)
    {
      next[x] := n;
      prev[x] := p;
      if p != NULL {
        next[p] := x;
      }
      if n != NULL {
        prev[n] := x;
      }
    }

    /** list_remove */
    method Remove(x: nat) returns (after: int)
      requires Valid() && x < next.Length && prev[x] != x && next[x] != x
      requires prev[x] == NULL || 0 <= prev[x] < next.Length
      requires next[x] == NULL || 0 <= next[x] < next.Length
      modifies prev, next
      ensures View() == RemoveLinks(old(View()), x)
      ensures after == old(next[x])
    {
      if prev[x] != NULL {
        next[prev[x]] := next[x];
      }
      if next[x] != NULL {
        prev[next[x]] := prev[x];
      }
      after := next[x];
      next[x] := NULL;
      prev[x] := NULL;
    }
  }
}
