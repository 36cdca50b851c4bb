/** The preemptive interrupt tasks of lib/exception/exception_c.c: a chain of queues, each
    preempting the one before it, in which tasks wait by priority. */
module ExceptTasks {
  import opened Machine
  import L = LinkedNodes

  const QUEUE_POOL_LEN: nat := 16
  const TOP_PRIORITY: nat := 2

  /** DEFAULT, UART and TIMER are 0, 1 and 2; `id` tells arrivals apart. */
  datatype Task = Task(priority: nat, id: nat)

  type Queue = seq<Task>

  // ----- the chain as a value -----

  /** Running tasks are the heads of the queues; the last queue's head has the processor. */
  predicate Sorted(q: Queue) {
    forall i, j :: 0 <= i < j < |q| ==> q[i].priority >= q[j].priority
  }

  predicate QueueOk(q: Queue) {
    q != [] && Sorted(q) && forall i :: 0 <= i < |q| ==> q[i].priority <= TOP_PRIORITY
  }

  predicate Above(q: Queue, p: nat) {
    forall i :: 0 <= i < |q| ==> q[i].priority > p
  }

  predicate Below(q: Queue, p: nat) {
    forall i :: 0 <= i < |q| ==> q[i].priority < p
  }

  predicate Inv(w: seq<Queue>) {
    && (forall i :: 0 <= i < |w| ==> QueueOk(w[i]))
    && (forall i, j :: 0 <= i < j < |w| ==> Above(w[j], w[i][0].priority))
  }

  /** The first queue whose head is not of lower priority; the end of the chain if there is none. */
  function Level(w: seq<Queue>, p: nat): (i: nat)
    requires forall k :: 0 <= k < |w| ==> w[k] != []
    ensures i <= |w| && (i < |w| ==> w[i][0].priority >= p)
    ensures forall k :: 0 <= k < i ==> w[k][0].priority < p
  {
    if w == [] || p <= w[0][0].priority then 0 else 1 + Level(w[1..], p)
  }

  /** Where a task goes in a queue: behind the head and all that are not of lower priority. */
  function Place(q: Queue, p: nat): (i: nat)
    requires q != []
    ensures 1 <= i <= |q| && (i < |q| ==> q[i].priority < p)
    ensures forall k :: 1 <= k < i ==> q[k].priority >= p
  {
    if |q| == 1 || q[1].priority < p then 1 else 1 + Place(q[1..], p)
  }

  function InsertTask(q: Queue, t: Task): Queue
    requires q != []
  {
    var i := Place(q, t.priority);
    q[..i] + [t] + q[i..]
  }

  /** enqueue_task */
  function Enqueue(w: seq<Queue>, t: Task): seq<Queue>
    requires forall k :: 0 <= k < |w| ==> w[k] != []
  {
    var i := Level(w, t.priority);
    if i == |w| then w + [[t]] else w[i := InsertTask(w[i], t)]
  }

  /** The running task is done: exec_queue moves to the queue's next task, and the queue leaves
      the chain when it has none. */
  function Finish(w: seq<Queue>): seq<Queue>
    requires w != [] && w[|w| - 1] != []
  {
    var q := w[|w| - 1][1..];
    if q == [] then w[..|w| - 1] else w[|w| - 1 := q]
  }

  lemma InsertTaskOk(q: Queue, t: Task)
    requires QueueOk(q) && t.priority <= q[0].priority
    ensures QueueOk(InsertTask(q, t)) && InsertTask(q, t)[0] == q[0]
  {
    var i := Place(q, t.priority);
    var r := InsertTask(q, t);
    forall k | 0 <= k < i
      ensures q[k].priority >= t.priority
    {
    }
    forall k | i <= k < |q|
      ensures q[k].priority < t.priority
    {
      assert q[i].priority >= q[k].priority;
    }
  }

  lemma EnqueueKeeps(w: seq<Queue>, t: Task)
    requires Inv(w) && t.priority <= TOP_PRIORITY
    ensures Inv(Enqueue(w, t))
  {
    var i := Level(w, t.priority);
    var v: seq<Queue> := Enqueue(w, t);
    if i < |w| {
      InsertTaskOk(w[i], t);
      forall a | 0 <= a < i
        ensures Above(v[i], w[a][0].priority)
      {
        assert Above(w[i], w[a][0].priority);
      }
    }
    forall a: nat, b: nat | a < b < |v|
      ensures Above(v[b], v[a][0].priority)
    {
      if b < |w| { assert Above(w[b], w[a][0].priority); }
    }
  }

  lemma FinishKeeps(w: seq<Queue>)
    requires Inv(w) && w != []
    ensures Inv(Finish(w))
  {
    var n := |w| - 1;
    var v: seq<Queue> := Finish(w);
    forall a: nat, b: nat | a < b < |v|
      ensures Above(v[b], v[a][0].priority)
    {
      assert Above(w[b], w[a][0].priority);
    }
  }

  /** The running task has the highest priority of all; and no more than three queues are ever
      nested, one for each priority. */
  lemma RunningIsHighest(w: seq<Queue>)
    requires Inv(w) && w != []
    ensures forall i, j :: 0 <= i < |w| && 0 <= j < |w[i]| ==> w[i][j].priority <= w[|w| - 1][0].priority
    ensures |w| <= TOP_PRIORITY + 1
  {
    var n := |w| - 1;
    forall i, j | 0 <= i < |w| && 0 <= j < |w[i]|
      ensures w[i][j].priority <= w[n][0].priority
    {
      if i < n { assert Above(w[n], w[i][0].priority); }
    }
    HeadsClimb(w, n);
  }

  lemma {:induction false} HeadsClimb(w: seq<Queue>, i: nat)
    requires Inv(w) && i < |w|
    ensures w[i][0].priority >= i
  {
    if i > 0 {
      HeadsClimb(w, i - 1);
      assert Above(w[i], w[i - 1][0].priority);
    }
  }

  /** A new task preempts the running one exactly when it has strictly higher priority. */
  lemma PreemptsIff(w: seq<Queue>, t: Task)
    requires Inv(w) && w != []
    ensures |Enqueue(w, t)| == |w| + 1 <==> t.priority > w[|w| - 1][0].priority
    ensures |Enqueue(w, t)| == |w| ==> Enqueue(w, t)[|w| - 1][0] == w[|w| - 1][0]
  {
    RunningIsHighest(w);
    var i := Level(w, t.priority);
    if i < |w| {
      assert InsertTask(w[i], t)[0] == w[i][0];
    }
  }

  // ----- order of execution -----

  function Flat(w: seq<Queue>): seq<Task> {
    if w == [] then [] else w[0] + Flat(w[1..])
  }

  /** The tasks of one priority, in order. */
  function Of(ts: seq<Task>, p: nat): seq<Task> {
    if ts == [] then [] else (if ts[0].priority == p then [ts[0]] else []) + Of(ts[1..], p)
  }

  lemma {:induction false} OfConcat(a: seq<Task>, b: seq<Task>, p: nat)
    ensures Of(a + b, p) == Of(a, p) + Of(b, p)
  {
    if a == [] {
      assert a + b == b;
    } else {
      OfConcat(a[1..], b, p);
      assert (a + b)[1..] == a[1..] + b;
      var first := if a[0].priority == p then [a[0]] else [];
      Associate(first, Of(a[1..], p), Of(b, p));
    }
  }

  lemma {:induction false} OfNone(ts: seq<Task>, p: nat)
    requires forall i :: 0 <= i < |ts| ==> ts[i].priority != p
    ensures Of(ts, p) == []
  {
    if ts != [] { OfNone(ts[1..], p); }
  }

  lemma OfOne(t: Task, p: nat)
    ensures Of([t], p) == if t.priority == p then [t] else []
  {
  }

  lemma {:induction false} FlatSplit(w: seq<Queue>, i: nat)
    requires i < |w|
    ensures Flat(w) == Flat(w[..i]) + w[i] + Flat(w[i + 1..])
  {
    if i > 0 {
      FlatSplit(w[1..], i - 1);
      assert w[1..][..i - 1] == w[1..i] == w[..i][1..];
      assert w[1..][i..] == w[i + 1..];
      var a, b, c := Flat(w[1..i]), w[i], Flat(w[i + 1..]);
      assert w[0] + (a + b + c) == (w[0] + a) + b + c;
    } else {
      assert w[..0] == [];
      assert Flat([]) + w[0] == w[0];
    }
  }

  /** All tasks from queue i on satisfy what its members do. */
  lemma {:induction false} FlatAbove(w: seq<Queue>, p: nat)
    requires forall i :: 0 <= i < |w| ==> Above(w[i], p)
    ensures Above(Flat(w), p)
  {
    if w != [] { FlatAbove(w[1..], p); }
  }

  lemma {:induction false} FlatBelow(w: seq<Queue>, p: nat)
    requires forall i :: 0 <= i < |w| ==> Below(w[i], p)
    ensures Below(Flat(w), p)
  {
    if w != [] { FlatBelow(w[1..], p); }
  }

  /** A new task goes behind all waiting tasks of its priority, and disturbs no other order. */
  lemma EnqueueOrder(w: seq<Queue>, t: Task, p: nat)
    requires Inv(w) && t.priority <= TOP_PRIORITY
    ensures Of(Flat(Enqueue(w, t)), p) == Of(Flat(w), p) + if p == t.priority then [t] else []
  {
    hide Of, Flat, Sorted, Place, Level;
    var i := Level(w, t.priority);
    var v: seq<Queue> := Enqueue(w, t);
    OfOne(t, p);
    if i == |w| {
      FlatSplit(v, i);
      assert v[..i] == w && v[i + 1..] == [];
      FlatNil();
      assert Flat(w) + [t] + [] == Flat(w) + [t];
      OfConcat(Flat(w), [t], p);
    } else {
      var k := Place(w[i], t.priority);
      var pre, post := Flat(w[..i]), Flat(w[i + 1..]);
      FlatSplit(w, i);
      FlatSplit(v, i);
      assert v[..i] == w[..i] && v[i + 1..] == w[i + 1..];
      var a, b := w[i][..k], w[i][k..];
      assert w[i] == a + b;
      OfConcat(pre + (a + b), post, p);
      OfConcat(pre, a + b, p);
      OfConcat(a, b, p);
      OfConcat(pre + (a + [t] + b), post, p);
      OfConcat(pre, a + [t] + b, p);
      OfConcat(a + [t], b, p);
      OfConcat(a, [t], p);
      if p == t.priority {
        BehindIsOther(w, i, k, p);
      }
      var x, y, z, u := Of(pre, p), Of(a, p), Of(b, p), Of(post, p);
      var n := Of([t], p);
      assert p != t.priority ==> n == [];
      assert p == t.priority ==> z == [] && u == [];
      assert x + (y + n + z) + u == x + (y + z) + u + n;
    }
  }

  lemma FlatNil()
    ensures Flat([]) == []
  {
  }

  lemma BehindIsOther(w: seq<Queue>, i: nat, k: nat, p: nat)
    requires Inv(w) && i < |w| && k == Place(w[i], p) && p <= w[i][0].priority
    ensures Of(w[i][k..], p) == [] && Of(Flat(w[i + 1..]), p) == []
  {
    forall j | k <= j < |w[i]|
      ensures w[i][j].priority < p
    {
      assert w[i][k].priority >= w[i][j].priority;
    }
    OfNone(w[i][k..], p);
    var ws := w[i + 1..];
    forall a | 0 <= a < |ws|
      ensures Above(ws[a], p)
    {
      assert Above(w[i + 1 + a], w[i][0].priority);
    }
    FlatAbove(w[i + 1..], p);
    OfNone(Flat(w[i + 1..]), p);
  }

  /** The task that finishes is the first of its priority. */
  lemma FinishOrder(w: seq<Queue>, p: nat)
    requires Inv(w) && w != []
    ensures var t := w[|w| - 1][0];
            Of(Flat(w), p) == (if p == t.priority then [t] else []) + Of(Flat(Finish(w)), p)
  {
    hide Of, Flat;
    var n := |w| - 1;
    var q := w[n];
    var t := q[0];
    var pre := Flat(w[..n]);
    FlatSplit(w, n);
    assert w[n + 1..] == [];
    FlatNil();
    assert q == [t] + q[1..];
    OfConcat(pre, [t] + q[1..], p);
    OfConcat([t], q[1..], p);
    OfOne(t, p);
    if p == t.priority {
      BeforeIsLower(w);
      OfNone(pre, p);
    }
    var v: seq<Queue> := Finish(w);
    if q[1..] == [] {
      assert v == w[..n];
      OfNone([], p);
      assert pre + q + [] == pre + q;
      assert Of(pre, p) + (Of([t], p) + []) == Of([t], p) + Of(pre, p);
    } else {
      FlatSplit(v, n);
      assert v[..n] == w[..n] && v[n + 1..] == [];
      assert pre + q[1..] + [] == pre + q[1..];
      assert pre + q + [] == pre + q;
      OfConcat(pre, q[1..], p);
      assert Of(pre, p) + (Of([t], p) + Of(q[1..], p)) == Of([t], p) + (Of(pre, p) + Of(q[1..], p));
    }
  }

  lemma BeforeIsLower(w: seq<Queue>)
    requires Inv(w) && w != []
    ensures Below(Flat(w[..|w| - 1]), w[|w| - 1][0].priority)
  {
    var n := |w| - 1;
    var ws := w[..n];
    forall i | 0 <= i < |ws|
      ensures Below(ws[i], w[n][0].priority)
    {
      assert Above(w[n], w[i][0].priority);
    }
    FlatBelow(ws, w[n][0].priority);
  }

  // ----- runs -----

  datatype Step = Arrive(t: Task) | Done

  datatype State = State(chain: seq<Queue>, arrived: seq<Task>, finished: seq<Task>)

  predicate Allowed(s: State, e: Step) {
    match e
    case Arrive(t) => t.priority <= TOP_PRIORITY
    case Done => s.chain != []
  }

  function Next(s: State, e: Step): State
    requires Inv(s.chain) && Allowed(s, e)
  {
    match e
    case Arrive(t) => State(Enqueue(s.chain, t), s.arrived + [t], s.finished)
    case Done => State(Finish(s.chain), s.arrived, s.finished + [s.chain[|s.chain| - 1][0]])
  }

  /** Tasks of each priority finish in the order in which they arrived, and none is lost. */
  ghost predicate InOrder(s: State) {
    Inv(s.chain) && forall p: nat :: Of(s.finished, p) + Of(Flat(s.chain), p) == Of(s.arrived, p)
  }

  lemma NextKeeps(s: State, e: Step)
    requires InOrder(s) && Allowed(s, e)
    ensures InOrder(Next(s, e))
  {
    hide Of, Flat, Enqueue, Finish;
    var n := Next(s, e);
    match e {
      case Arrive(t) =>
        EnqueueKeeps(s.chain, t);
        forall p: nat
          ensures Of(n.finished, p) + Of(Flat(n.chain), p) == Of(n.arrived, p)
        {
          EnqueueOrder(s.chain, t, p);
          OfConcat(s.arrived, [t], p);
          OfOne(t, p);
        }
      case Done =>
        var t := s.chain[|s.chain| - 1][0];
        FinishKeeps(s.chain);
        forall p: nat
          ensures Of(n.finished, p) + Of(Flat(n.chain), p) == Of(n.arrived, p)
        {
          FinishOrder(s.chain, p);
          OfConcat(s.finished, [t], p);
          OfOne(t, p);
        }
    }
  }

  ghost predicate Runs(s: State, steps: seq<Step>, e: State)
    requires InOrder(s)
    decreases |steps|
  {
    if steps == [] then s == e
    else Allowed(s, steps[0]) && (NextKeeps(s, steps[0]); Runs(Next(s, steps[0]), steps[1..], e))
  }

  /** For all arrivals interleaved with finishing tasks: the chain stays ordered, at most three
      queues deep, with a task of highest priority running; and equal priorities finish in the
      order they arrived, none lost. */
  lemma {:induction false} RunsKeep(s: State, steps: seq<Step>, e: State)
    requires InOrder(s) && Runs(s, steps, e)
    ensures InOrder(e) && |e.chain| <= TOP_PRIORITY + 1
    ensures e.chain != [] ==> forall i, j :: 0 <= i < |e.chain| && 0 <= j < |e.chain[i]| ==>
              e.chain[i][j].priority <= e.chain[|e.chain| - 1][0].priority
    decreases |steps|
  {
    hide Of, Flat;
    if steps == [] {
      if e.chain != [] { RunningIsHighest(e.chain); }
    } else {
      NextKeeps(s, steps[0]);
      RunsKeep(Next(s, steps[0]), steps[1..], e);
    }
  }

  // ----- the pool of queues -----

  /** The queue structures: the base queue, and each one's `preemptor` and tasks. */
  datatype Pool = Pool(base: int, pre: seq<int>, tasks: seq<Queue>)

  function Nth(chain: seq<nat>, i: int): int {
    if 0 <= i < |chain| then chain[i] else NULL
  }

  /** Following `preemptor` from the base queue visits these queues. */
  ghost predicate Linked(p: Pool, chain: seq<nat>) {
    && |p.pre| == |p.tasks| == QUEUE_POOL_LEN
    && (forall i :: 0 <= i < |chain| ==> chain[i] < QUEUE_POOL_LEN)
    && (forall i, j :: 0 <= i < j < |chain| ==> chain[i] != chain[j])
    && p.base == Nth(chain, 0)
    && forall i: nat :: i < |chain| ==> PreOk(p, chain, i)
  }

  ghost predicate PreOk(p: Pool, chain: seq<nat>, i: nat)
    requires i < |chain|
  {
    chain[i] < |p.pre| && p.pre[chain[i]] == Nth(chain, i + 1)
  }

  /** What exec_queue leaves behind when queue q has drained: the structure is cleared and given
      back, and the base is reset if it was q, but the queue that q preempted still names it. */
  function Release(p: Pool, q: nat): Pool
    requires q < |p.pre| && q < |p.tasks|
  {
    Pool(if p.base == q then NULL else p.base, p.pre[q := NULL], p.tasks[q := []])
  }

  /** So after a drained queue is released, every queue reachable from the base has a task exactly
      if the drained one was the base.  Otherwise the walk of enqueue_task can reach a queue
      without a head, whose priority it then reads through NULL. */
  lemma DanglingPreemptor(p: Pool, chain: seq<nat>)
    requires Linked(p, chain) && chain != [] && forall i :: 0 <= i < |chain| ==> p.tasks[chain[i]] != []
    ensures var r := Release(p, chain[|chain| - 1]); var left := if |chain| == 1 then [] else chain;
            && Linked(r, left)
            && ((forall i :: 0 <= i < |left| ==> r.tasks[left[i]] != []) <==> |chain| == 1)
  {
    var q := chain[|chain| - 1];
    var r := Release(p, q);
    var left := if |chain| == 1 then [] else chain;
    forall i: nat | i < |left|
      ensures PreOk(r, left, i)
    {
      assert PreOk(p, chain, i);
    }
    if |chain| > 1 { assert r.tasks[left[|left| - 1]] == []; }
  }

  /** A queue linked behind the last one. */
  lemma LinkedQueue(p: Pool, chain: seq<nat>, q: nat, t: Task)
    requires Linked(p, chain) && q < QUEUE_POOL_LEN && q !in chain && p.pre[q] == NULL
    ensures var n := |chain|;
            Linked(Pool(if n == 0 then q else p.base, if n == 0 then p.pre else p.pre[chain[n - 1] := q],
                        p.tasks[q := [t]]), chain + [q])
  {
    var n := |chain|;
    var r := Pool(if n == 0 then q else p.base, if n == 0 then p.pre else p.pre[chain[n - 1] := q], p.tasks[q := [t]]);
    if n > 0 { assert PreOk(p, chain, 0); }
    forall i: nat | i < n + 1
      ensures PreOk(r, chain + [q], i)
    {
      if i < n { assert PreOk(p, chain, i); }
    }
  }

  /** With the unlink, the rest of the chain is left. */
  lemma UnlinkedChain(p: Pool, chain: seq<nat>)
    requires Linked(p, chain) && chain != []
    ensures var n := |chain| - 1; var q := chain[n]; var r := Release(p, q);
            Linked(if n == 0 then r else r.(pre := r.pre[chain[n - 1] := NULL]), chain[..n])
  {
    var n := |chain| - 1;
    var r := Release(p, chain[n]);
    var r' := if n == 0 then r else r.(pre := r.pre[chain[n - 1] := NULL]);
    forall i: nat | i < n
      ensures PreOk(r', chain[..n], i)
    {
      assert PreOk(p, chain, i);
    }
  }

  /** The queues in use, and the pooled ones that are not. */
  ghost predicate FreeOk(free: seq<nat>, used: seq<nat>, pre: seq<int>) {
    && |pre| == QUEUE_POOL_LEN && |used| + |free| == QUEUE_POOL_LEN
    && (forall i :: 0 <= i < |free| ==> free[i] < QUEUE_POOL_LEN && free[i] !in used && pre[free[i]] == NULL)
    && (forall i, j :: 0 <= i < j < |free| ==> free[i] != free[j])
    && (forall i :: 0 <= i < |used| ==> used[i] < QUEUE_POOL_LEN)
    && forall i, j :: 0 <= i < j < |used| ==> used[i] != used[j]
  }

  /** Giving a queue back. */
  lemma FreePush(free: seq<nat>, used: seq<nat>, k: nat, pre: seq<int>, pre': seq<int>)
    requires FreeOk(free, used, pre) && k < |used| && |pre'| == QUEUE_POOL_LEN && pre'[used[k]] == NULL
    requires forall x: nat :: x < QUEUE_POOL_LEN && pre[x] == NULL ==> pre'[x] == NULL
    ensures used[k] !in free && FreeOk([used[k]] + free, used[..k] + used[k + 1..], pre')
  {
    var rest := used[..k] + used[k + 1..];
    forall i | 0 <= i < |rest|
      ensures rest[i] != used[k] && rest[i] in used
    {
      var j := if i < k then i else i + 1;
      assert rest[i] == used[j];
    }
  }

  lemma FreeHead(free: seq<nat>, used: seq<nat>, pre: seq<int>)
    requires FreeOk(free, used, pre) && free != []
    ensures free[0] < QUEUE_POOL_LEN == |pre| && free[0] !in used && pre[free[0]] == NULL
  {
  }

  /** Taking a queue from the pool. */
  lemma FreePop(free: seq<nat>, used: seq<nat>, pre: seq<int>, pre': seq<int>)
    requires FreeOk(free, used, pre) && free != [] && |pre'| == QUEUE_POOL_LEN
    requires forall x: nat :: x < QUEUE_POOL_LEN && x !in used ==> pre'[x] == pre[x]
    ensures FreeOk(free[1..], used + [free[0]], pre')
  {
  }

  lemma PartOf(others: seq<nat>, free: seq<nat>, chain: seq<nat>, i: nat)
    requires i < |others| + |free| + |chain|
    ensures var x := (others + free + chain)[i]; var n, f := |others|, |free|;
            if n <= i < n + f then x in free && x == free[i - n]
            else x in others + chain && x == (others + chain)[if i < n then i else i - f]
  {
    var used := others + chain;
    if i < |others| {
      assert used[i] == others[i];
    } else if i >= |others| + |free| {
      assert used[i - |free|] == chain[i - |others| - |free|];
    }
  }

  /** When the free list is lost, its queues are as good as in use. */
  lemma Lost(free: seq<nat>, others: seq<nat>, chain: seq<nat>, pre: seq<int>)
    requires FreeOk(free, others + chain, pre)
    ensures FreeOk([], others + free + chain, pre)
  {
    var used, all := others + chain, others + free + chain;
    forall i, j | 0 <= i < j < |all|
      ensures all[i] != all[j]
    {
      PartOf(others, free, chain, i);
      PartOf(others, free, chain, j);
    }
    forall i | 0 <= i < |all|
      ensures all[i] < QUEUE_POOL_LEN
    {
      PartOf(others, free, chain, i);
    }
  }

  /** A queue is free exactly while fewer are in use than the pool has. */
  lemma FreeIff(free: seq<nat>, used: seq<nat>, pre: seq<int>)
    requires FreeOk(free, used, pre)
    ensures free != [] <==> |used| < QUEUE_POOL_LEN
  {
  }

  /** The tasks of the queues of a chain. */
  ghost function Contents(tasks: seq<Queue>, chain: seq<nat>): (w: seq<Queue>)
    ensures |w| == |chain|
    ensures forall i :: 0 <= i < |chain| && chain[i] < |tasks| ==> w[i] == tasks[chain[i]]
  {
    seq(|chain|, i requires 0 <= i < |chain| => if chain[i] < |tasks| then tasks[chain[i]] else [])
  }

  lemma ContentsElsewhere(tasks: seq<Queue>, chain: seq<nat>, q: nat, v: Queue)
    requires q < |tasks| && q !in chain
    ensures Contents(tasks[q := v], chain) == Contents(tasks, chain)
  {
    forall i | 0 <= i < |chain|
      ensures Contents(tasks[q := v], chain)[i] == Contents(tasks, chain)[i]
    {
      assert chain[i] in chain;
    }
  }

  lemma ContentsBehind(tasks: seq<Queue>, chain: seq<nat>, q: nat, v: Queue)
    requires q < |tasks| && q !in chain
    ensures Contents(tasks[q := v], chain + [q]) == Contents(tasks, chain) + [v]
  {
    ContentsElsewhere(tasks, chain, q, v);
    forall i | 0 <= i < |chain| + 1
      ensures Contents(tasks[q := v], chain + [q])[i] == (Contents(tasks, chain) + [v])[i]
    {
      if i < |chain| { assert Contents(tasks[q := v], chain)[i] == Contents(tasks, chain)[i]; }
    }
  }

  lemma ContentsConcat(tasks: seq<Queue>, a: seq<nat>, b: seq<nat>)
    ensures Contents(tasks, a + b) == Contents(tasks, a) + Contents(tasks, b)
    ensures Contents(tasks, []) == []
  {
  }

  lemma ContentsBefore(tasks: seq<Queue>, chain: seq<nat>)
    requires chain != [] && forall i, j :: 0 <= i < j < |chain| ==> chain[i] != chain[j]
    requires chain[|chain| - 1] < |tasks|
    ensures var n := |chain| - 1; Contents(tasks[chain[n] := []], chain[..n]) == Contents(tasks, chain)[..n]
  {
  }

  // ----- the code, with the missing unlink -----

  /** queue_free_list: the free queues of the pool, linked by the nodes in them. */
  class FreeList {
    const nodes: L.Nodes
    var head: int
    ghost var list: seq<nat>

    ghost predicate Valid()
      reads this, nodes, nodes.prev, nodes.next
    {
      nodes.Valid() && head == L.At(list, 0) && L.Linked(nodes.View(), [list])
    }

    /** The loop of init_exception over the queues. */
    constructor (n: nat)
      ensures Valid() && list == seq(n, i => i) && nodes.next.Length == n
      ensures fresh(nodes) && fresh(nodes.prev) && fresh(nodes.next)
    {
      nodes := new L.Nodes(n);
      head, list := NULL, [];
      new;
      for i := n downto 0
        invariant Valid() && list == seq(n - i, k => i + k)
        invariant fresh(nodes.prev) && fresh(nodes.next)
      {
        Push(i);
      }
    }

    /** init_except_queue, as far as the node goes, and list_add before the head */
    method Push(q: nat)
      requires Valid() && q < nodes.next.Length && q !in list
      modifies this, nodes.prev, nodes.next
      ensures Valid() && list == [q] + old(list)
    {
      hide L.Linked, L.AddLinks;
      ghost var lists := [list];
      assert lists[0] == list && !L.On(lists, q);
      nodes.Init(q);
      L.InitUnlisted(old(nodes.View()), lists, q);
      L.PushFront(nodes.View(), lists, 0, q);
      nodes.Add(q, NULL, head);
      head := q;
      list := [q] + list;
      assert lists[0 := list] == [list];
    }

    /** query_queue */
    method Query() returns (q: int)
      requires Valid()
      modifies this, nodes.prev, nodes.next
      ensures Valid()
      ensures if old(list) == [] then q == NULL && list == []
              else q == old(list)[0] && list == old(list)[1..]
    {
      hide L.Linked, L.RemoveLinks;
      if head == NULL {
        return NULL;
      }
      ghost var lists := [list];
      assert lists[0] == list;
      q := head;
      L.TakeOut(nodes.View(), lists, 0, q);
      L.WithoutAt(list, 0);
      L.HeadAfter(nodes.View(), lists, 0, q);
      head := nodes.Remove(q);
      list := list[1..];
      assert lists[0 := list] == [list];
    }

    /** What free_queue does to the list.  Through a null pointer it makes the list empty: the clearing
        and the linking then go to page 0, and the head becomes null. */
    method Free(q: int)
      requires Valid() && (q == NULL || (0 <= q < nodes.next.Length && q !in list))
      modifies this, nodes.prev, nodes.next
      ensures Valid() && list == if q == NULL then [] else [q] + old(list)
    {
      if q == NULL {
        head := NULL;
        list := [];
      } else {
        Push(q);
      }
    }
  }

  /** The current workload, the base fields that the threads' own workloads keep, and the pool that
      all share.  `chain` is what the base reaches; `others` are the queues that neither the base nor
      the free list reaches: those in use in suspended threads or further down the current thread's
      stack, and those that free_workload has lost.  The queue that a drained one preempted forgets
      it here; the source leaves that out. */
  class Workload {
    var base: int
    const saved: array<int>
    const timerMasks: array<bool>
    const uartMasks: array<bool>
    var timerOn: bool
    var uartOn: bool
    const preemptor: array<int>
    const tasks: array<Queue>
    const freeList: FreeList
    ghost var chain: seq<nat>
    ghost var others: seq<nat>

    ghost function FreeHeap(): set<object> {
      {freeList, freeList.nodes.prev, freeList.nodes.next}
    }

    ghost function Queues(): Pool
      reads this, preemptor, tasks
    {
      Pool(base, preemptor[..], tasks[..])
    }

    ghost function View(): (w: seq<Queue>)
      reads this, tasks
    {
      Contents(tasks[..], chain)
    }

    /** The tasks of the queues that the base does not reach. */
    ghost function Hidden(): (w: seq<Queue>)
      reads this, tasks
      ensures |w| == |others|
    {
      Contents(tasks[..], others)
    }

    ghost predicate Apart() {
      && saved != preemptor && {saved, preemptor} !! {freeList.nodes.prev, freeList.nodes.next}
      && freeList.nodes.next.Length == QUEUE_POOL_LEN
    }

    ghost predicate Valid()
      reads this, preemptor, tasks, saved, timerMasks, uartMasks
      reads freeList, freeList.nodes, freeList.nodes.prev, freeList.nodes.next
    {
      && Linked(Queues(), chain) && Inv(View()) && FreeOk(freeList.list, others + chain, preemptor[..])
      && Apart() && freeList.Valid() && Untouched()
    }

    /** Nobody writes to the workload of a thread after init_workload. */
    ghost predicate Untouched()
      reads saved, timerMasks, uartMasks
    {
      && saved.Length == timerMasks.Length == uartMasks.Length
      && forall i :: 0 <= i < saved.Length ==> saved[i] == NULL && !timerMasks[i] && !uartMasks[i]
    }

    /** init_exception, as far as queues go, and init_workload for every thread to come */
    constructor (threads: nat)
      ensures Valid() && View() == [] && others == [] && saved.Length == threads
    {
      hide L.Linked, Inv, Linked, FreeOk;
      AllFree(seq(QUEUE_POOL_LEN, _ => NULL), seq(QUEUE_POOL_LEN, _ => []));
      base := NULL;
      saved := new int[threads](_ => NULL);
      timerMasks, uartMasks := new bool[threads](_ => false), new bool[threads](_ => false);
      timerOn, uartOn := true, true;
      preemptor := new int[QUEUE_POOL_LEN](_ => NULL);
      tasks := new Queue[QUEUE_POOL_LEN](_ => []);
      freeList := new FreeList(QUEUE_POOL_LEN);
      chain, others := [], [];
      new;
      assert preemptor[..] == seq(QUEUE_POOL_LEN, _ => NULL) && tasks[..] == seq(QUEUE_POOL_LEN, _ => []);
      assert others + chain == [];
    }

    /** Before the first interrupt. */
    static lemma AllFree(pre: seq<int>, tasks: seq<Queue>)
      requires |pre| == |tasks| == QUEUE_POOL_LEN && forall i :: 0 <= i < |pre| ==> pre[i] == NULL
      ensures Linked(Pool(NULL, pre, tasks), []) && Inv([]) && FreeOk(seq(QUEUE_POOL_LEN, i => i), [], pre)
    {
    }

    /** swap_event_workload, to the workload of a thread: whatever the base reached is hidden, and
        both interrupts are on, whatever was masked before. */
    method Swap(next: nat)
      requires Valid() && next < saved.Length
      modifies this
      ensures Valid() && View() == [] && chain == [] && others == old(others + chain)
      ensures Hidden() == old(Hidden() + View()) && freeList.list == old(freeList.list)
      ensures timerOn && uartOn
    {
      hide FreeOk, Contents;
      LinkedSizes();
      ContentsConcat(tasks[..], others, chain);
      base := saved[next];
      timerOn := !timerMasks[next];
      uartOn := !uartMasks[next];
      others, chain := others + chain, [];
      assert others + chain == old(others + chain);
    }

    /** The walk of enqueue_task along the chain. */
    method FindQueue(t: Task) returns (iter: int, prev: int, ghost i: nat)
      requires Valid()
      ensures i == Level(View(), t.priority) <= |chain| && iter == Nth(chain, i)
      ensures prev == if i == 0 then NULL else chain[i - 1]
    {
      hide Sorted, Above, Level;
      ghost var w := View();
      iter, prev, i := base, NULL, 0;
      while iter != NULL && t.priority > tasks[iter][0].priority
        invariant i <= |chain| && iter == Nth(chain, i) && prev == if i == 0 then NULL else chain[i - 1]
        invariant forall k :: 0 <= k < i ==> QueueOk(w[k]) && w[k][0].priority < t.priority
        decreases |chain| - i
      {
        assert PreOk(Queues(), chain, i) && QueueOk(w[i]);
        prev := iter;
        iter := preemptor[iter];
        i := i + 1;
      }
      LevelIs(w, t.priority, i);
    }

    /** query_queue, and the new queue at the end of the chain */
    method NewQueue(t: Task, prev: int) returns (q: nat)
      requires Valid() && freeList.list != [] && prev == Nth(chain, |chain| - 1)
      requires Inv(View() + [[t]])
      modifies this, preemptor, tasks, FreeHeap()
      ensures Valid() && View() == old(View()) + [[t]] && chain == old(chain) + [q]
      ensures others == old(others) && Hidden() == old(Hidden())
    {
      hide Inv, PreOk, FreeOk, Untouched, Contents, Linked;
      ghost var before, p, free := others + chain, Queues(), freeList.list;
      FreeHead(free, before, p.pre);
      LinkedSizes();
      Parts(others, chain, free[0]);
      LinkedQueue(p, chain, free[0], t);
      ContentsBehind(p.tasks, chain, free[0], [t]);
      ContentsElsewhere(p.tasks, others, free[0], [t]);
      NextFree(free, others, chain, p.pre);
      var avail := freeList.Query();
      q := avail;
      tasks[q] := [t];
      if base == NULL {
        base := q;
      }
      if prev != NULL {
        preemptor[prev] := q;
      }
      chain := chain + [q];
    }

    static lemma Parts(others: seq<nat>, chain: seq<nat>, q: nat)
      requires q !in others + chain
      ensures q !in others && q !in chain
    {
    }

    /** The first free queue is taken, and the last of the chain names it. */
    static lemma NextFree(free: seq<nat>, others: seq<nat>, chain: seq<nat>, pre: seq<int>)
      requires FreeOk(free, others + chain, pre) && free != []
      ensures FreeOk(free[1..], others + (chain + [free[0]]), pre)
      ensures chain != [] && chain[|chain| - 1] < |pre| ==>
                FreeOk(free[1..], others + (chain + [free[0]]), pre[chain[|chain| - 1] := free[0]])
    {
      hide FreeOk;
      var used, n := others + chain, |chain| - 1;
      PreSized(free, used, pre);
      FreePop(free, used, pre, pre);
      assert used + [free[0]] == others + (chain + [free[0]]);
      if chain != [] && chain[n] < |pre| {
        assert used[|others| + n] == chain[n];
        FreePop(free, used, pre, pre[chain[n] := free[0]]);
      }
    }

    /** Queues that the base does not reach keep their tasks when one that it reaches changes. */
    lemma Elsewhere(q: nat)
      requires FreeOk(freeList.list, others + chain, preemptor[..]) && q in chain
      ensures q !in others
    {
      var i :| 0 <= i < |chain| && chain[i] == q;
      forall k | 0 <= k < |others|
        ensures others[k] != q
      {
        assert (others + chain)[k] == others[k] && (others + chain)[|others| + i] == q;
      }
    }

    /** The insertion of enqueue_task into an existing queue. */
    method InsertInto(t: Task, q: nat, ghost i: nat)
      requires Valid() && i < |chain| && chain[i] == q && Inv(View()[i := InsertTask(View()[i], t)])
      modifies tasks
      ensures Valid() && View() == old(View())[i := InsertTask(old(View())[i], t)] && Hidden() == old(Hidden())
    {
      hide Inv, Place, FreeOk, Untouched;
      ghost var p, w, h := Queues(), View(), Hidden();
      var at := 1;
      while at < |tasks[q]| && tasks[q][at].priority >= t.priority
        invariant 1 <= at <= |tasks[q]|
        invariant forall k :: 1 <= k < at ==> tasks[q][k].priority >= t.priority
      {
        at := at + 1;
      }
      PlaceIs(tasks[q], t.priority, at);
      Elsewhere(q);
      tasks[q] := tasks[q][..at] + [t] + tasks[q][at..];
      assert View() == w[i := InsertTask(w[i], t)];
      assert Hidden() == h;
      forall k: nat | k < |chain|
        ensures PreOk(Queues(), chain, k)
      {
        assert PreOk(p, chain, k);
      }
    }

    /** enqueue_task: the queue it created, if it created one.  It does not look at whether
        query_queue found one. */
    method EnqueueTask(t: Task) returns (created: int)
      requires Valid() && t.priority <= TOP_PRIORITY
      requires Level(View(), t.priority) == |chain| ==> |others| + |chain| < QUEUE_POOL_LEN
      modifies this, preemptor, tasks, FreeHeap()
      ensures Valid() && View() == Enqueue(old(View()), t)
      ensures created == if |chain| > |old(chain)| then chain[|chain| - 1] else NULL
      ensures others == old(others) && Hidden() == old(Hidden())
    {
      hide Level, InsertTask, Linked, FreeOk, Untouched;
      ghost var w := View();
      EnqueueKeeps(w, t);
      FreeIff(freeList.list, others + chain, preemptor[..]);
      var iter, prev; ghost var i;
      iter, prev, i := FindQueue(t);
      if iter == NULL {
        created := NewQueue(t, prev);
      } else {
        InsertInto(t, iter, i);
        created := NULL;
      }
    }

    /** exec_queue, after the handler of the running task in the base's chain has returned: the task
        is freed, and when the queue has drained it is freed too. */
    method FinishTask()
      requires Valid() && chain != []
      modifies this, preemptor, tasks, FreeHeap()
      ensures Valid() && View() == Finish(old(View()))
      ensures others == old(others) && Hidden() == old(Hidden())
    {
      hide Inv, FreeOk, Untouched;
      ghost var p, w, h := Queues(), View(), Hidden();
      FinishKeeps(w);
      TasksLeft(w);
      var q, prev := LastQueue();
      assert PreOk(p, chain, |chain| - 1);
      if |tasks[q]| == 1 {
        ReleaseQueue(q, prev);
      } else {
        Elsewhere(q);
        tasks[q] := tasks[q][1..];
        assert View() == Finish(w);
        assert Hidden() == h;
        forall i: nat | i < |chain|
          ensures PreOk(Queues(), chain, i)
        {
          assert PreOk(p, chain, i);
        }
      }
    }

    static lemma TasksLeft(w: seq<Queue>)
      requires Inv(w) && w != []
      ensures w[|w| - 1] != [] && (|w[|w| - 1]| == 1 ==> Finish(w) == w[..|w| - 1])
    {
    }

    lemma LinkedSizes()
      requires Linked(Queues(), chain)
      ensures preemptor.Length == tasks.Length == QUEUE_POOL_LEN
      ensures forall i :: 0 <= i < |chain| ==> chain[i] < QUEUE_POOL_LEN
      ensures forall i, j :: 0 <= i < j < |chain| ==> chain[i] != chain[j]
      ensures base == Nth(chain, 0)
    {
    }

    /** free_queue */
    method FreeQueue(q: int)
      requires preemptor.Length == tasks.Length == QUEUE_POOL_LEN && Apart() && freeList.Valid()
      requires q == NULL || (0 <= q < QUEUE_POOL_LEN && q !in freeList.list)
      modifies preemptor, tasks, FreeHeap()
      ensures freeList.Valid() && freeList.list == if q == NULL then [] else [q] + old(freeList.list)
      ensures preemptor[..] == if q == NULL then old(preemptor[..]) else old(preemptor[..])[q := NULL]
      ensures tasks[..] == if q == NULL then old(tasks[..]) else old(tasks[..])[q := []]
    {
      if q != NULL {
        tasks[q] := [];
        preemptor[q] := NULL;
      }
      freeList.Free(q);
    }

    /** free_workload of a dead thread, as far as queues go.  It looks for a base queue, but frees one
        when there is none: nobody reaches the free queues any more. */
    method FreeWorkload(dead: nat)
      requires Valid() && dead < saved.Length
      modifies this, preemptor, tasks, FreeHeap()
      ensures Valid() && freeList.list == [] && others == old(others + freeList.list)
      ensures chain == old(chain) && View() == old(View()) && base == old(base)
      ensures preemptor[..] == old(preemptor[..]) && tasks[..] == old(tasks[..])
    {
      hide FreeOk, Linked, Inv;
      Lost(freeList.list, others, chain, preemptor[..]);
      LinkedSizes();
      if saved[dead] == NULL {
        FreeQueue(saved[dead]);
      }
      others := others + old(freeList.list);
    }

    /** free_queue, the base reset when it was the base queue, and the unlink. */
    method ClearQueue(q: nat, prev: int)
      requires preemptor.Length == tasks.Length == QUEUE_POOL_LEN && q < QUEUE_POOL_LEN
      requires prev == NULL || 0 <= prev < QUEUE_POOL_LEN
      requires Apart() && freeList.Valid() && q !in freeList.list
      modifies this`base, preemptor, tasks, FreeHeap()
      ensures freeList.Valid() && freeList.list == [q] + old(freeList.list)
      ensures var r := Release(old(Queues()), q); Queues() == if prev == NULL then r else r.(pre := r.pre[prev := NULL])
    {
      FreeQueue(q);
      if base == q {
        base := NULL;
      }
      if prev != NULL {
        preemptor[prev] := NULL;
      }
    }

    /** Clearing a drained queue, giving it back, and unlinking it. */
    method ReleaseQueue(q: nat, prev: int)
      requires Valid() && chain != [] && q == chain[|chain| - 1] && prev == Nth(chain, |chain| - 2)
      requires Inv(View()[..|chain| - 1])
      modifies this, preemptor, tasks, FreeHeap()
      ensures Valid() && View() == old(View())[..|old(chain)| - 1]
      ensures others == old(others) && Hidden() == old(Hidden())
    {
      hide Inv, PreOk, FreeOk, Untouched, Linked, Contents;
      LinkedSizes();
      ghost var p, free := Queues(), freeList.list;
      Elsewhere(q);
      UnlinkedChain(p, chain);
      ContentsElsewhere(p.tasks, others, q, []);
      ContentsBefore(p.tasks, chain);
      LastGone(free, others, chain, p.pre);
      ClearQueue(q, prev);
      chain := chain[..|chain| - 1];
    }

    /** The last queue of the chain is free. */
    static lemma LastGone(free: seq<nat>, others: seq<nat>, chain: seq<nat>, pre: seq<int>)
      requires FreeOk(free, others + chain, pre) && chain != []
      requires forall i :: 0 <= i < |chain| ==> chain[i] < |pre|
      ensures var n := |chain| - 1; var pre' := pre[chain[n] := NULL];
              && chain[n] !in free && FreeOk([chain[n]] + free, others + chain[..n], pre')
              && (n > 0 ==> FreeOk([chain[n]] + free, others + chain[..n], pre'[chain[n - 1] := NULL]))
    {
      hide FreeOk;
      var used, n := others + chain, |chain| - 1;
      var k := |others| + n;
      assert used[k] == chain[n] && used[..k] + used[k + 1..] == others + chain[..n];
      PreSized(free, used, pre);
      FreePush(free, used, k, pre, pre[chain[n] := NULL]);
      if n > 0 { FreePush(free, used, k, pre, pre[chain[n] := NULL][chain[n - 1] := NULL]); }
    }

    static lemma PreSized(free: seq<nat>, used: seq<nat>, pre: seq<int>)
      requires FreeOk(free, used, pre)
      ensures |pre| == QUEUE_POOL_LEN
    {
    }

    /** The queue being executed, and the one it preempted. */
    method LastQueue() returns (q: nat, prev: int)
      requires Valid() && chain != []
      ensures q == chain[|chain| - 1] && prev == Nth(chain, |chain| - 2)
    {
      hide Inv, FreeOk, Untouched;
      q, prev := base, NULL;
      ghost var i := 0;
      assert PreOk(Queues(), chain, 0);
      while preemptor[q] != NULL
        invariant i < |chain| && q == chain[i] && PreOk(Queues(), chain, i)
        invariant prev == if i == 0 then NULL else chain[i - 1]
        decreases |chain| - i
      {
        prev := q;
        q := preemptor[q];
        i := i + 1;
        assert PreOk(Queues(), chain, i);
      }
    }

    /** The same as FinishTask for a queue that the base does not reach, which a thread that came
        back still executes: exec_queue holds it in its argument. */
    method FinishHidden(q: nat, ghost k: nat)
      requires Valid() && k < |others| && others[k] == q && Hidden()[k] != []
      modifies this, preemptor, tasks, FreeHeap()
      ensures Valid() && View() == old(View()) && chain == old(chain)
      ensures var w := old(Hidden());
              if |w[k]| == 1 then others == old(others)[..k] + old(others)[k + 1..] && Hidden() == w[..k] + w[k + 1..]
              else others == old(others) && Hidden() == w[k := w[k][1..]]
    {
      hide Inv, FreeOk, Untouched, Linked;
      HiddenApart(k);
      if |tasks[q]| == 1 {
        ReleaseHidden(q, k);
      } else {
        ghost var w, v, p := Hidden(), View(), Queues();
        tasks[q] := tasks[q][1..];
        assert Hidden() == w[k := w[k][1..]] && View() == v;
        StillLinked(p, Queues(), chain, q);
      }
    }

    /** The queue has drained. */
    method ReleaseHidden(q: nat, ghost k: nat)
      requires Valid() && k < |others| && others[k] == q
      modifies this, preemptor, tasks, FreeHeap()
      ensures Valid() && View() == old(View()) && chain == old(chain)
      ensures others == old(others)[..k] + old(others)[k + 1..]
      ensures Hidden() == old(Hidden())[..k] + old(Hidden())[k + 1..]
    {
      hide Inv, FreeOk, Untouched, Linked;
      ghost var w, v, p, used := Hidden(), View(), Queues(), others + chain;
      ghost var before, free, pre := others, freeList.list, preemptor[..];
      HiddenApart(k);
      assert used[k] == q && used[..k] + used[k + 1..] == (others[..k] + others[k + 1..]) + chain;
      PreSized(free, used, pre);
      FreePush(free, used, k, pre, pre[q := NULL]);
      FreeQueue(q);
      base := if base == q then NULL else base;
      others := others[..k] + others[k + 1..];
      HiddenWithout(before, w, k);
      assert View() == v;
      StillLinked(p, Queues(), chain, q);
    }

    lemma HiddenApart(k: nat)
      requires Valid() && k < |others|
      ensures others[k] !in chain && others[k] < QUEUE_POOL_LEN
      ensures forall i :: 0 <= i < |others| && i != k ==> others[i] != others[k]
      ensures base != others[k]
      ensures preemptor.Length == tasks.Length == QUEUE_POOL_LEN
      ensures forall i :: 0 <= i < |others| ==> others[i] < QUEUE_POOL_LEN
    {
      var used := others + chain;
      assert used[k] == others[k];
      forall i | 0 <= i < |others|
        ensures others[i] < QUEUE_POOL_LEN && (i != k ==> others[i] != others[k])
      {
        assert used[i] == others[i];
      }
      forall i | 0 <= i < |chain|
        ensures chain[i] != others[k]
      {
        assert used[|others| + i] == chain[i];
      }
    }

    /** Hidden, with one queue cleared and left out. */
    lemma HiddenWithout(before: seq<nat>, w: seq<Queue>, k: nat)
      requires k < |before| == |w| && others == before[..k] + before[k + 1..]
      requires forall i :: 0 <= i < |before| ==> before[i] < tasks.Length
      requires forall i :: 0 <= i < |before| && i != k ==> tasks[before[i]] == w[i]
      ensures Hidden() == w[..k] + w[k + 1..]
    {
    }
  }

  /** Clearing a queue that is not on the chain leaves the chain alone. */
  lemma StillLinked(p: Pool, r: Pool, chain: seq<nat>, q: nat)
    requires Linked(p, chain) && q !in chain && |r.pre| == |p.pre| && |r.tasks| == |p.tasks| && r.base == p.base
    requires forall x :: 0 <= x < |p.pre| && x != q ==> r.pre[x] == p.pre[x]
    ensures Linked(r, chain)
  {
    forall i: nat | i < |chain|
      ensures PreOk(r, chain, i)
    {
      assert PreOk(p, chain, i) && chain[i] in chain;
    }
  }

  lemma {:induction false} LevelIs(w: seq<Queue>, p: nat, i: nat)
    requires i <= |w| && forall k :: 0 <= k < |w| ==> w[k] != []
    requires (forall k :: 0 <= k < i ==> w[k][0].priority < p) && (i < |w| ==> w[i][0].priority >= p)
    ensures Level(w, p) == i
  {
    if i > 0 { LevelIs(w[1..], p, i - 1); }
  }

  lemma {:induction false} PlaceIs(q: Queue, p: nat, i: nat)
    requires 1 <= i <= |q| && (i < |q| ==> q[i].priority < p) && forall k :: 1 <= k < i ==> q[k].priority >= p
    ensures Place(q, p) == i
  {
    if i > 1 { PlaceIs(q[1..], p, i - 1); }
  }
}
