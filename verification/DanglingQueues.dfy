/** The release of exec_queue as its text has it (lib/exception/exception_c.c): a drained queue goes
    back to the pool, but the queue that it preempted still names it.  The walk of enqueue_task
    then comes to a queue without a head, and reads its priority through null. */
module DanglingQueues {
  import opened Machine
  import opened ExceptTasks

  /** The walk over the queues that follow the base; None is a read through null. */
  function Walk(ts: seq<Queue>, p: nat): Option<nat> {
    if ts == [] then Some(0)
    else if ts[0] == [] then None
    else if p <= ts[0][0].priority then Some(0)
    else
      match Walk(ts[1..], p)
      case None => None
      case Some(i) => Some(i + 1)
  }

  /** The walk stops where it should, unless it has to pass the last queue with a task and there is
      one without behind it. */
  lemma {:induction false} WalkExact(w: seq<Queue>, p: nat)
    requires forall i :: 0 <= i < |w| ==> w[i] != []
    ensures Walk(w, p) == Some(Level(w, p))
    ensures Walk(w + [[]], p) == if Level(w, p) == |w| then None else Some(Level(w, p))
  {
    if w == [] {
      assert w + [[]] == [[]];
    } else {
      assert (w + [[]])[1..] == w[1..] + [[]];
      WalkExact(w[1..], p);
    }
  }

  // ----- the code's own steps -----

  /** The queues that have tasks, and whether the last of them names one that has none. */
  datatype Code = Code(chain: seq<Queue>, dangling: bool)

  function Visited(c: Code): seq<Queue> {
    c.chain + if c.dangling then [[]] else []
  }

  predicate MayFollow(c: Code, e: Step) {
    e.Done? ==> c.chain != []
  }

  /** The walk and the insertion of enqueue_task; the end of a task in exec_queue. */
  function CodeNext(c: Code, e: Step): Option<Code>
    requires (forall i :: 0 <= i < |c.chain| ==> c.chain[i] != []) && MayFollow(c, e)
  {
    match e
    case Arrive(t) =>
      (match Walk(Visited(c), t.priority)
       case None => None
       case Some(i) =>
         if i < |c.chain| then Some(c.(chain := c.chain[i := InsertTask(c.chain[i], t)]))
         else Some(c.(chain := c.chain + [[t]])))
    case Done =>
      var n := |c.chain| - 1;
      Some(Code(Finish(c.chain), if |c.chain[n]| == 1 then n > 0 else c.dangling))
  }

  lemma ReleaseLinks(p: Pool, chain: seq<nat>, n: nat)
    requires Linked(p, chain) && n < |chain|
    ensures Linked(Release(p, chain[n]), if n == 0 then [] else chain[..n + 1])
  {
    var r := Release(p, chain[n]);
    var left := if n == 0 then [] else chain[..n + 1];
    assert PreOk(p, chain, 0);
    forall i: nat | i < |left|
      ensures PreOk(r, left, i)
    {
      assert PreOk(p, chain, i);
    }
  }

  lemma ReleaseContents(tasks: seq<Queue>, chain: seq<nat>, n: nat)
    requires n < |chain| && forall i, j :: 0 <= i < j < |chain| ==> chain[i] != chain[j]
    requires forall i :: 0 <= i < |chain| ==> chain[i] < |tasks|
    ensures Contents(tasks[chain[n] := []], chain[..n + 1]) == Contents(tasks, chain)[..n] + [[]]
    ensures Contents(tasks, []) == []
  {
  }

  /** That is what the release leaves in the pool: a walk from the base visits these queues. */
  lemma ReleaseVisits(p: Pool, chain: seq<nat>, c: Code)
    requires Linked(p, chain) && Contents(p.tasks, chain) == Visited(c) && c.chain != []
    requires (forall i :: 0 <= i < |c.chain| ==> c.chain[i] != []) && |c.chain[|c.chain| - 1]| == 1
    ensures var n := |c.chain| - 1; var r := Release(p, chain[n]); var left := if n == 0 then [] else chain[..n + 1];
            Linked(r, left) && CodeNext(c, Done).Some? && Contents(r.tasks, left) == Visited(CodeNext(c, Done).value)
  {
    hide Linked, PreOk, Contents;
    var n := |c.chain| - 1;
    Distinct(p, chain);
    ReleaseLinks(p, chain, n);
    ReleaseContents(p.tasks, chain, n);
    assert Visited(c)[..n] == c.chain[..n];
    assert c.chain[..0] == [];
  }

  lemma Distinct(p: Pool, chain: seq<nat>)
    requires Linked(p, chain)
    ensures |p.pre| == |p.tasks| && (forall i :: 0 <= i < |chain| ==> chain[i] < |p.tasks|)
    ensures forall i, j :: 0 <= i < j < |chain| ==> chain[i] != chain[j]
  {
  }

  // ----- runs -----

  ghost predicate CodeRuns(c: Code, steps: seq<Step>, r: Option<Code>)
    decreases |steps|
  {
    if steps == [] then r == Some(c)
    else
      && (forall i :: 0 <= i < |c.chain| ==> c.chain[i] != []) && MayFollow(c, steps[0])
      && match CodeNext(c, steps[0])
         case None => r == None
         case Some(d) => CodeRuns(d, steps[1..], r)
  }

  /** The state after the first i steps, were drained queues unlinked. */
  ghost function At(s: State, steps: seq<Step>, e: State, i: nat): (r: State)
    requires InOrder(s) && Runs(s, steps, e) && i <= |steps|
    ensures InOrder(r) && (i < |steps| ==> Allowed(r, steps[i]))
    decreases i
  {
    if i == 0 then s
    else
      NextKeeps(s, steps[0]);
      At(Next(s, steps[0]), steps[1..], e, i - 1)
  }

  /** Step j is an arrival that needs a new queue. */
  ghost predicate NeedsQueue(s: State, steps: seq<Step>, e: State, j: nat)
    requires InOrder(s) && Runs(s, steps, e) && j < |steps|
  {
    steps[j].Arrive? && Level(At(s, steps, e, j).chain, steps[j].t.priority) == |At(s, steps, e, j).chain|
  }

  /** Step i drains a queue that preempted another. */
  ghost predicate Drains(s: State, steps: seq<Step>, e: State, i: nat)
    requires InOrder(s) && Runs(s, steps, e) && i < |steps|
  {
    steps[i].Done? && var w := At(s, steps, e, i).chain; |w| > 1 && |w[|w| - 1]| == 1
  }

  /** There are tasks before each of the steps k .. j. */
  ghost predicate Busy(s: State, steps: seq<Step>, e: State, k: nat, j: nat)
    requires InOrder(s) && Runs(s, steps, e) && j < |steps|
  {
    forall n: nat :: k <= n <= j ==> At(s, steps, e, n).chain != []
  }

  /** A queue drains at step i, and before the processor has nothing to do, an arrival needs a queue. */
  ghost predicate Fatal(s: State, steps: seq<Step>, e: State, i: nat, j: nat)
    requires InOrder(s) && Runs(s, steps, e)
  {
    i < j < |steps| && Drains(s, steps, e, i) && NeedsQueue(s, steps, e, j) && Busy(s, steps, e, i + 1, j)
  }

  ghost predicate FatalNow(s: State, steps: seq<Step>, e: State, j: nat)
    requires InOrder(s) && Runs(s, steps, e)
  {
    j < |steps| && NeedsQueue(s, steps, e, j) && Busy(s, steps, e, 0, j)
  }

  /** The same, one step later. */
  lemma Shift(s: State, steps: seq<Step>, e: State, i: nat, j: nat)
    requires InOrder(s) && Runs(s, steps, e) && steps != []
    ensures Allowed(s, steps[0]) && InOrder(Next(s, steps[0])) && Runs(Next(s, steps[0]), steps[1..], e)
    ensures var m := Next(s, steps[0]); var rest := steps[1..];
            && (FatalNow(s, steps, e, j + 1) <==> s.chain != [] && FatalNow(m, rest, e, j))
            && (Fatal(s, steps, e, i + 1, j + 1) <==> Fatal(m, rest, e, i, j))
            && (Fatal(s, steps, e, 0, j + 1) <==> Drains(s, steps, e, 0) && FatalNow(m, rest, e, j))
  {
    hide Of, Flat, Next, Level, Inv;
    NextKeeps(s, steps[0]);
    var m, rest := Next(s, steps[0]), steps[1..];
    forall n: nat | n < |steps|
      ensures n > 0 ==> At(s, steps, e, n) == At(m, rest, e, n - 1)
    {
    }
    if j < |rest| {
      BusyShift(s, steps, e, 0, j);
      BusyShift(s, steps, e, i + 1, j);
    }
  }

  lemma BusyShift(s: State, steps: seq<Step>, e: State, k: nat, j: nat)
    requires InOrder(s) && Runs(s, steps, e) && steps != [] && j + 1 < |steps|
    ensures Allowed(s, steps[0]) && InOrder(Next(s, steps[0])) && Runs(Next(s, steps[0]), steps[1..], e)
    ensures var m := Next(s, steps[0]); var rest := steps[1..];
            && (Busy(s, steps, e, k + 1, j + 1) <==> Busy(m, rest, e, k, j))
            && (Busy(s, steps, e, 0, j + 1) <==> s.chain != [] && Busy(m, rest, e, 0, j))
  {
    hide Of, Flat, Next, Inv;
    NextKeeps(s, steps[0]);
    var m, rest := Next(s, steps[0]), steps[1..];
    assert At(s, steps, e, 0) == s;
    forall n: nat | n <= j
      ensures At(s, steps, e, n + 1) == At(m, rest, e, n)
    {
    }
    if Busy(s, steps, e, k + 1, j + 1) {
      forall n: nat | k <= n <= j
        ensures At(m, rest, e, n).chain != []
      {
        assert At(s, steps, e, n + 1).chain != [];
      }
    }
    if Busy(s, steps, e, 0, j + 1) {
      forall n: nat | n <= j
        ensures At(m, rest, e, n).chain != []
      {
        assert At(s, steps, e, n + 1).chain != [];
      }
    }
    if Busy(m, rest, e, k, j) {
      forall n: nat | k + 1 <= n <= j + 1
        ensures At(s, steps, e, n).chain != []
      {
        assert At(m, rest, e, n - 1).chain != [];
      }
    }
    if s.chain != [] && Busy(m, rest, e, 0, j) {
      forall n: nat | n <= j + 1
        ensures At(s, steps, e, n).chain != []
      {
        if n > 0 { assert At(m, rest, e, n - 1).chain != []; }
      }
    }
  }

  /** One step of the code is one of the chain with unlinked queues, unless it reads through null. */
  lemma OneStep(s: State, dangling: bool, e: Step)
    requires InOrder(s) && Allowed(s, e)
    ensures var c := Code(s.chain, dangling); var w := s.chain;
            && (forall i :: 0 <= i < |w| ==> w[i] != []) && MayFollow(c, e)
            && (CodeNext(c, e).None? <==> e.Arrive? && dangling && Level(w, e.t.priority) == |w|)
            && (CodeNext(c, e).Some? ==>
                  var d := CodeNext(c, e).value;
                  && d.chain == Next(s, e).chain
                  && d.dangling == if e.Done? && |w[|w| - 1]| == 1 then |w| > 1 else dangling)
  {
    hide Of, Flat, InsertTask;
    if e.Arrive? { WalkExact(s.chain, e.t.priority); }
    assert s.chain + [] == s.chain;
  }

  /** After an arrival there is a task, and while one was there the end of another leaves one, unless
      the last queue drained. */
  lemma StillBusy(s: State, e: Step)
    requires InOrder(s) && Allowed(s, e)
    ensures var w := s.chain; var n := Next(s, e).chain;
            && (e.Arrive? ==> n != [])
            && (e.Done? ==> (n == [] <==> |w| == 1 && |w[0]| == 1))
  {
    hide Of, Flat;
  }

  lemma NoneFatal(s: State, e: State)
    requires InOrder(s) && Runs(s, [], e)
    ensures forall j: nat :: !FatalNow(s, [], e, j)
    ensures forall i: nat, j: nat :: !Fatal(s, [], e, i, j)
  {
  }

  /** What the first step has to do with it. */
  lemma FirstStep(s: State, steps: seq<Step>, e: State)
    requires InOrder(s) && Runs(s, steps, e) && steps != []
    ensures var a := steps[0]; var w := s.chain;
            && (FatalNow(s, steps, e, 0) <==> w != [] && a.Arrive? && Level(w, a.t.priority) == |w|)
            && (Drains(s, steps, e, 0) <==> a.Done? && |w| > 1 && |w[|w| - 1]| == 1)
    ensures forall i: nat :: !Fatal(s, steps, e, i, 0)
    ensures s.chain == [] ==> forall j: nat :: !FatalNow(s, steps, e, j)
  {
    hide Of, Flat, Inv, Level;
    assert At(s, steps, e, 0) == s;
  }

  /** The conditions on a run in terms of its first step and the rest. */
  lemma ShiftAll(s: State, steps: seq<Step>, e: State)
    requires InOrder(s) && Runs(s, steps, e) && steps != []
    ensures Allowed(s, steps[0]) && InOrder(Next(s, steps[0])) && Runs(Next(s, steps[0]), steps[1..], e)
    ensures var m := Next(s, steps[0]); var rest := steps[1..];
            && ((exists j: nat :: FatalNow(s, steps, e, j)) <==>
                  FatalNow(s, steps, e, 0) || (s.chain != [] && exists j: nat :: FatalNow(m, rest, e, j)))
            && ((exists i: nat, j: nat :: Fatal(s, steps, e, i, j)) <==>
                  || (Drains(s, steps, e, 0) && exists j: nat :: FatalNow(m, rest, e, j))
                  || exists i: nat, j: nat :: Fatal(m, rest, e, i, j))
            && (m.chain == [] ==> forall j: nat :: !FatalNow(m, rest, e, j))
  {
    hide Of, Flat, Next, Inv, Fatal, FatalNow, Drains, NeedsQueue, Busy;
    NextKeeps(s, steps[0]);
    var m, rest := Next(s, steps[0]), steps[1..];
    FirstStep(s, steps, e);
    if rest != [] { FirstStep(m, rest, e); } else { NoneFatal(m, e); }
    if j: nat :| FatalNow(s, steps, e, j) && j > 0 {
      Shift(s, steps, e, 0, j - 1);
    }
    if j: nat :| FatalNow(m, rest, e, j) {
      Shift(s, steps, e, 0, j);
    }
    if i: nat, j: nat :| Fatal(s, steps, e, i, j) {
      Shift(s, steps, e, if i > 0 then i - 1 else 0, if j > 0 then j - 1 else 0);
    }
    if i: nat, j: nat :| Fatal(m, rest, e, i, j) {
      Shift(s, steps, e, i, j);
    }
  }

  /** The code as it stands does what it does with drained queues unlinked, and with it all that is
      proved of that, exactly over the runs in which no arrival needs a queue after one that
      preempted another has drained, until the processor has no task. */
  lemma {:induction false} CodeExact(s: State, dangling: bool, steps: seq<Step>, e: State)
    requires InOrder(s) && Runs(s, steps, e) && (dangling ==> s.chain != [])
    ensures CodeRuns(Code(s.chain, dangling), steps, None)
            <==> || (dangling && exists j: nat :: FatalNow(s, steps, e, j))
                 || exists i: nat, j: nat :: Fatal(s, steps, e, i, j)
    ensures !CodeRuns(Code(s.chain, dangling), steps, None) ==>
              exists d :: CodeRuns(Code(s.chain, dangling), steps, Some(Code(e.chain, d)))
    decreases |steps|
  {
    hide Of, Flat, Next, CodeNext, Inv, Fatal, FatalNow, Drains, NeedsQueue, Busy;
    var c := Code(s.chain, dangling);
    if steps == [] {
      NoneFatal(s, e);
    } else {
      var a := steps[0];
      OneStep(s, dangling, a);
      StillBusy(s, a);
      NextKeeps(s, a);
      var m, rest := Next(s, a), steps[1..];
      FirstStep(s, steps, e);
      ShiftAll(s, steps, e);
      if CodeNext(c, a).Some? {
        CodeExact(m, CodeNext(c, a).value.dangling, rest, e);
      }
    }
  }
}
