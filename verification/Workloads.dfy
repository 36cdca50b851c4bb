/** Interrupt tasks and threads together.  schedule gives the processor to another thread, from
    inside a timer task, and swap_event_workload (lib/exception/exception_c.c) then forgets the
    chain of queues: no thread's workload ever holds a base queue.  The queues of a suspended thread
    stay in use until it comes back, out of one pool for all. */
module Workloads {
  import opened ExceptTasks

  /** `base` is the chain that the base queue reaches, `under` the chains of the current thread that
      no base reaches, oldest first, and `asleep` the chains of each suspended thread.  `lost`
      counts queues that nobody will give back. */
  datatype System = System(base: State, under: seq<State>, asleep: seq<seq<State>>, free: nat, lost: nat)

  const IDLE: State := State([], [], [])
  const START: System := System(IDLE, [], [], QUEUE_POOL_LEN, 0)

  function Queues(stack: seq<State>): nat {
    if stack == [] then 0 else |stack[0].chain| + Queues(stack[1..])
  }

  function QueuesAll(stacks: seq<seq<State>>): nat {
    if stacks == [] then 0 else Queues(stacks[0]) + QueuesAll(stacks[1..])
  }

  /** The queues in use, here and in suspended threads. */
  function Held(s: System): nat {
    |s.base.chain| + Queues(s.under) + QueuesAll(s.asleep)
  }

  /** Every chain is as one workload alone would have it, and has a task to run. */
  ghost predicate StackOk(stack: seq<State>) {
    forall i :: 0 <= i < |stack| ==> InOrder(stack[i]) && stack[i].chain != []
  }

  ghost predicate Ok(s: System) {
    && InOrder(s.base) && StackOk(s.under)
    && (forall i :: 0 <= i < |s.asleep| ==> StackOk(s.asleep[i]))
    && s.free + Held(s) + s.lost == QUEUE_POOL_LEN
  }

  // ----- what runs -----

  predicate Busy(s: System) {
    s.base.chain != [] || s.under != []
  }

  /** The chain whose last queue is being executed. */
  function Top(s: System): State
    requires Busy(s)
  {
    if s.base.chain != [] then s.base else s.under[|s.under| - 1]
  }

  ghost function Running(s: System): Task
    requires Ok(s) && Busy(s)
  {
    var w := Top(s).chain;
    w[|w| - 1][0]
  }

  // ----- steps -----

  datatype Event =
    | Arrival(t: Task)        // irq_handler
    | Finished                // the running task's handler comes back
    | SwitchTo(i: nat)        // schedule, to suspended thread i
    | SwitchToNew             // schedule, to a thread that was not interrupted
    | ExitTo(i: nat)          // the same, from a thread that is dead
    | ExitToNew
    | Killed(i: nat)          // suspended thread i is killed
    | FreesWorkload           // free_workload, as its text has it

  /** A new queue is needed. */
  ghost predicate NeedsQueue(s: System, t: Task)
    requires Ok(s)
  {
    Level(s.base.chain, t.priority) == |s.base.chain|
  }

  /** enqueue_task writes through the queue it gets without looking at it. */
  ghost predicate Enabled(s: System, e: Event)
    requires Ok(s)
  {
    match e
    case Arrival(t) => t.priority <= TOP_PRIORITY && (NeedsQueue(s, t) ==> s.free > 0)
    case Finished => Busy(s)
    case SwitchTo(i) => i < |s.asleep|
    case ExitTo(i) => i < |s.asleep|
    case Killed(i) => i < |s.asleep|
    case _ => true
  }

  /** The chains that the current thread leaves behind on its stack. */
  function Stack(s: System): seq<State> {
    if s.base.chain == [] then s.under else s.under + [s.base]
  }

  ghost function After(s: System, e: Event): System
    requires Ok(s) && Enabled(s, e)
  {
    match e
    case Arrival(t) =>
      s.(base := Next(s.base, Arrive(t)), free := if NeedsQueue(s, t) then s.free - 1 else s.free)
    case Finished =>
      var done := Next(Top(s), Done);
      var free := s.free + |Top(s).chain| - |done.chain|;
      if s.base.chain != [] then s.(base := done, free := free)
      else
        var n := |s.under| - 1;
        s.(under := if done.chain == [] then s.under[..n] else s.under[n := done], free := free)
    case SwitchTo(i) => System(IDLE, s.asleep[i], s.asleep[i := Stack(s)], s.free, s.lost)
    case SwitchToNew => System(IDLE, [], s.asleep + [Stack(s)], s.free, s.lost)
    case ExitTo(i) => System(IDLE, s.asleep[i], s.asleep[i := []], s.free, s.lost + Queues(Stack(s)))
    case ExitToNew => System(IDLE, [], s.asleep, s.free, s.lost + Queues(Stack(s)))
    case Killed(i) => s.(asleep := s.asleep[i := []], lost := s.lost + Queues(s.asleep[i]))
    case FreesWorkload => s.(free := 0, lost := s.lost + s.free)
  }

  // ----- every step keeps the invariant -----

  lemma {:induction false} QueuesConcat(a: seq<State>, b: seq<State>)
    ensures Queues(a + b) == Queues(a) + Queues(b)
  {
    if a == [] {
      assert a + b == b;
    } else {
      assert (a + b)[1..] == a[1..] + b;
      QueuesConcat(a[1..], b);
    }
  }

  lemma QueuesOne(st: State)
    ensures Queues([st]) == |st.chain|
  {
    assert [st][1..] == [];
  }

  lemma QueuesLast(stack: seq<State>)
    requires stack != []
    ensures var n := |stack| - 1; Queues(stack) == Queues(stack[..n]) + |stack[n].chain|
  {
    var n := |stack| - 1;
    assert stack == stack[..n] + [stack[n]];
    QueuesConcat(stack[..n], [stack[n]]);
    QueuesOne(stack[n]);
  }

  lemma QueuesStack(s: System)
    ensures Queues(Stack(s)) == Queues(s.under) + |s.base.chain|
  {
    QueuesConcat(s.under, [s.base]);
    QueuesOne(s.base);
  }

  lemma {:induction false} QueuesReplace(stacks: seq<seq<State>>, i: nat, stack: seq<State>)
    requires i < |stacks|
    ensures QueuesAll(stacks[i := stack]) + Queues(stacks[i]) == QueuesAll(stacks) + Queues(stack)
  {
    var r := stacks[i := stack];
    if i > 0 {
      assert r[1..] == stacks[1..][i - 1 := stack];
      QueuesReplace(stacks[1..], i - 1, stack);
    } else {
      assert r[1..] == stacks[1..];
    }
  }

  lemma {:induction false} QueuesAppend(stacks: seq<seq<State>>, stack: seq<State>)
    ensures QueuesAll(stacks + [stack]) == QueuesAll(stacks) + Queues(stack)
  {
    if stacks == [] {
      assert [stack][1..] == [];
    } else {
      assert (stacks + [stack])[1..] == stacks[1..] + [stack];
      QueuesAppend(stacks[1..], stack);
    }
  }

  lemma IdleOk()
    ensures InOrder(IDLE)
  {
  }

  /** A task's end takes at most the queue it was in. */
  lemma DoneShrinks(st: State)
    requires InOrder(st) && st.chain != []
    ensures Allowed(st, Done) && InOrder(Next(st, Done)) && |Next(st, Done).chain| <= |st.chain|
  {
    hide InOrder;
    assert Inv(st.chain) by { InvOf(st); }
    NextKeeps(st, Done);
  }

  lemma InvOf(st: State)
    requires InOrder(st)
    ensures Inv(st.chain)
  {
  }

  lemma ArrivalGrows(st: State, t: Task)
    requires InOrder(st) && t.priority <= TOP_PRIORITY
    ensures Inv(st.chain) && InOrder(Next(st, Arrive(t)))
    ensures |Next(st, Arrive(t)).chain| == |st.chain| + if Level(st.chain, t.priority) == |st.chain| then 1 else 0
  {
    hide Of, Flat;
    NextKeeps(st, Arrive(t));
  }

  lemma StackKept(s: System)
    requires Ok(s)
    ensures StackOk(Stack(s))
  {
    hide InOrder;
  }

  lemma StepOk(s: System, e: Event)
    requires Ok(s) && Enabled(s, e)
    ensures Ok(After(s, e))
  {
    hide InOrder, Next, Queues, QueuesAll, Inv;
    IdleOk();
    StackKept(s);
    QueuesStack(s);
    NoQueues();
    match e {
      case Arrival(t) => ArrivalGrows(s.base, t);
      case Finished =>
        DoneShrinks(Top(s));
        if s.base.chain == [] {
          var n := |s.under| - 1;
          InvOf(s.under[n]);
          var done := Next(s.under[n], Done);
          QueuesLast(s.under);
          if done.chain != [] {
            QueuesLast(s.under[n := done]);
            assert s.under[n := done][..n] == s.under[..n];
          }
        }
      case SwitchTo(i) => QueuesReplace(s.asleep, i, Stack(s));
      case SwitchToNew => QueuesAppend(s.asleep, Stack(s));
      case ExitTo(i) => QueuesReplace(s.asleep, i, []);
      case ExitToNew =>
      case Killed(i) => QueuesReplace(s.asleep, i, []);
      case FreesWorkload =>
    }
  }

  lemma NoQueues()
    ensures Queues([]) == 0 && |IDLE.chain| == 0
  {
  }

  lemma StartOk()
    ensures Ok(START)
  {
    IdleOk();
  }

  // ----- runs -----

  ghost predicate SystemRuns(s: System, es: seq<Event>, u: System)
    decreases |es|
  {
    if es == [] then s == u
    else Ok(s) && Enabled(s, es[0]) && SystemRuns(After(s, es[0]), es[1..], u)
  }

  /** Over every run of all threads: each chain, reachable or suspended, is ordered, runs a task of
      its highest priority, and finishes equal priorities in arrival order, none lost; and every
      queue of the pool is free, in use, or lost for good. */
  lemma {:induction false} SystemRunsKeep(s: System, es: seq<Event>, u: System)
    requires Ok(s) && SystemRuns(s, es, u)
    ensures Ok(u)
    ensures (forall i :: 0 <= i < |es| ==> !Loses(es[i])) ==> u.lost == s.lost
    decreases |es|
  {
    hide After, Ok, Enabled;
    if es != [] {
      StepOk(s, es[0]);
      LostOnly(s, es[0]);
      SystemRunsKeep(After(s, es[0]), es[1..], u);
    }
  }

  /** Steps after which queues may be lost. */
  predicate Loses(e: Event) {
    e.ExitTo? || e.ExitToNew? || e.Killed? || e.FreesWorkload?
  }

  lemma LostOnly(s: System, e: Event)
    requires Ok(s) && Enabled(s, e)
    ensures !Loses(e) ==> After(s, e).lost == s.lost
  {
    hide Next, InOrder;
  }

  // ----- what a switch does -----

  /** After a switch no queue is reachable.  The thread that leaves keeps its queues and tasks as
      they are, and the one that comes back finds its own as it left them, unreachable. */
  lemma SwitchForgets(s: System, i: nat)
    requires Ok(s) && i < |s.asleep|
    ensures var u := After(s, SwitchTo(i));
            && u.base.chain == [] && u.under == s.asleep[i] && u.asleep[i] == Stack(s)
            && (s.asleep[i] != [] ==> Busy(u) && Top(u) == s.asleep[i][|s.asleep[i]| - 1])
            && forall j :: 0 <= j < |s.asleep| && j != i ==> u.asleep[j] == s.asleep[j]
  {
    hide InOrder;
  }

  // ----- when an arrival respects priority -----

  /** The queues that the current thread is inside of. */
  function Depth(s: System): nat {
    |s.base.chain| + Queues(s.under)
  }

  /** The task takes the processor at once. */
  ghost predicate Preempts(s: System, t: Task)
    requires Ok(s) && Enabled(s, Arrival(t))
  {
    Depth(After(s, Arrival(t))) > Depth(s)
  }

  /** An arrival preempts just when its priority is strictly higher than that of the running task,
      exactly if the running task's queue is one the base reaches, or the arrival is strictly
      higher. */
  lemma ArrivalRespects(s: System, t: Task)
    requires Ok(s) && Busy(s) && Enabled(s, Arrival(t))
    ensures (Preempts(s, t) <==> t.priority > Running(s).priority)
            <==> s.base.chain != [] || t.priority > Running(s).priority
  {
    hide InOrder, Queues;
    InvOf(s.base);
    ArrivalGrows(s.base, t);
    if s.base.chain != [] {
      PreemptsIff(s.base.chain, t);
    }
  }

  /** A task that preempts runs, whatever the base did not reach. */
  lemma PreemptsRuns(s: System, t: Task)
    requires Ok(s) && Enabled(s, Arrival(t)) && Preempts(s, t)
    ensures var u := After(s, Arrival(t)); Ok(u) && Busy(u) && Running(u) == t
  {
    hide InOrder, Queues;
    InvOf(s.base);
    StepOk(s, Arrival(t));
    ArrivalGrows(s.base, t);
  }

  /** A thread that a timer task suspended comes back inside that task, and the UART interrupts:
      the task of lower priority runs over the one of higher priority. */
  lemma UartOverTimer(timer: Task, other: Task, uart: Task) returns (es: seq<Event>, u: System)
    requires timer.priority == other.priority == 2 && uart.priority == 1
    ensures SystemRuns(START, es, u) && Ok(u) && Busy(u) && Running(u) == timer
    ensures Enabled(u, Arrival(uart)) && Preempts(u, uart)
    ensures Running(u).priority > uart.priority
  {
    hide InOrder;
    StartOk();
    var e1, e2, e3, e4 := Arrival(timer), SwitchToNew, Arrival(other), SwitchTo(0);
    var s1 := Arrives(START, timer);
    StepOk(s1, e2);
    var s2 := After(s1, e2);
    var s3 := Arrives(s2, other);
    StepOk(s3, e4);
    u := After(s3, e4);
    es := [e1, e2, e3, e4];
    RunsOne(s3, e4);
    RunsMore(s2, e3, [e4], u);
    RunsMore(s1, e2, [e3, e4], u);
    RunsMore(START, e1, [e2, e3, e4], u);
    ArrivalRespects(u, uart);
    ArrivalGrows(u.base, uart);
  }

  /** An arrival while the base is null starts a chain of one queue. */
  lemma Arrives(s: System, t: Task) returns (u: System)
    requires Ok(s) && s.base.chain == [] && t.priority <= TOP_PRIORITY && s.free > 0
    ensures Enabled(s, Arrival(t)) && u == After(s, Arrival(t)) && Ok(u)
    ensures u.base.chain == [[t]] && u.under == s.under && u.asleep == s.asleep
    ensures u.free == s.free - 1 && u.lost == s.lost
  {
    hide InOrder;
    InvOf(s.base);
    StepOk(s, Arrival(t));
    u := After(s, Arrival(t));
  }

  lemma RunsOne(s: System, e: Event)
    requires Ok(s) && Enabled(s, e)
    ensures SystemRuns(s, [e], After(s, e))
  {
    hide After, Ok;
    assert [e][1..] == [];
  }

  lemma RunsMore(s: System, e: Event, es: seq<Event>, u: System)
    requires Ok(s) && Enabled(s, e) && SystemRuns(After(s, e), es, u)
    ensures SystemRuns(s, [e] + es, u)
  {
    hide After, Ok;
    assert ([e] + es)[1..] == es;
  }

  predicate AtMost(st: State, p: nat) {
    forall i, j :: 0 <= i < |st.chain| && 0 <= j < |st.chain[i]| ==> st.chain[i][j].priority <= p
  }

  /** What the chain runs is of priority p at most. */
  predicate RunsAtMost(st: State, p: nat) {
    st.chain != [] && st.chain[|st.chain| - 1] != [] ==> st.chain[|st.chain| - 1][0].priority <= p
  }

  lemma ChainRunsHighest(st: State, p: nat)
    requires InOrder(st) && st.chain != []
    ensures AtMost(st, p) <==> RunsAtMost(st, p)
  {
    InvOf(st);
    RunningIsHighest(st.chain);
    var n := |st.chain| - 1;
    if AtMost(st, p) { assert st.chain[n][0].priority <= p; }
  }

  /** The running task has the highest priority of all the thread's tasks exactly if no chain that
      the base does not reach runs a higher one. */
  lemma RunningHighestIff(s: System)
    requires Ok(s) && Busy(s)
    ensures (forall st :: st in Stack(s) ==> AtMost(st, Running(s).priority))
            <==> forall st :: st in s.under ==> RunsAtMost(st, Running(s).priority)
  {
    hide InOrder, AtMost;
    var p := Running(s).priority;
    StackKept(s);
    forall st | st in Stack(s)
      ensures AtMost(st, p) <==> RunsAtMost(st, p)
    {
      ChainRunsHighest(st, p);
    }
    assert forall st :: st in Stack(s) <==> st in s.under || (s.base.chain != [] && st == s.base);
  }

  // ----- when the pool has a queue -----

  /** query_queue finds a queue exactly if those in use, by the current thread and the suspended
      ones, and those lost are fewer than the pool has. */
  lemma QueueAvailable(s: System)
    requires Ok(s)
    ensures s.free > 0 <==> |s.base.chain| + Queues(s.under) + QueuesAll(s.asleep) + s.lost < QUEUE_POOL_LEN
  {
  }

  /** Without killed threads and reaped workloads nothing is lost, and the queues in use decide. */
  lemma QueueAvailableInRun(es: seq<Event>, u: System)
    requires SystemRuns(START, es, u) && forall i :: 0 <= i < |es| ==> !Loses(es[i])
    ensures u.free > 0 <==> |u.base.chain| + Queues(u.under) + QueuesAll(u.asleep) < QUEUE_POOL_LEN
  {
    StartOk();
    SystemRunsKeep(START, es, u);
  }

  /** Thread after thread suspended in a timer task uses the pool up. */
  lemma {:induction false} PoolRunsOut(s: System, t: Task) returns (es: seq<Event>, u: System)
    requires Ok(s) && s.base.chain == [] && t.priority == TOP_PRIORITY
    ensures SystemRuns(s, es, u) && Ok(u) && u.base.chain == [] && u.free == 0
    ensures NeedsQueue(u, t) && !Enabled(u, Arrival(t))
    ensures forall i :: 0 <= i < |es| ==> !Loses(es[i])
    decreases s.free
  {
    hide InOrder, Queues, QueuesAll;
    es, u := [], s;
    if s.free > 0 {
      var a := Arrives(s, t);
      StepOk(a, SwitchToNew);
      var b := After(a, SwitchToNew);
      es, u := PoolRunsOut(b, t);
      RunsMore(a, SwitchToNew, es, u);
      RunsMore(s, Arrival(t), [SwitchToNew] + es, u);
      es := [Arrival(t)] + ([SwitchToNew] + es);
    }
  }

  /** free_workload frees a null queue, because no thread's workload has a base: it keeps the pool
      exactly if the pool had no free queue anyway. */
  lemma FreesWorkloadExact(s: System)
    requires Ok(s)
    ensures After(s, FreesWorkload) == s <==> s.free == 0
    ensures After(s, FreesWorkload).free == 0
  {
  }

  /** From then on only the queues that were in use come back: over every run in which nothing else is
      lost, a queue is free exactly while fewer are in use than were then.  If none was, no arrival
      finds a queue ever again. */
  lemma FreesWorkloadStarves(s: System, es: seq<Event>, u: System)
    requires Ok(s) && SystemRuns(After(s, FreesWorkload), es, u)
    requires forall i :: 0 <= i < |es| ==> !Loses(es[i])
    ensures Ok(u) && (u.free > 0 <==> Held(u) < Held(s))
    ensures Held(s) == 0 ==> forall t: Task :: !Enabled(u, Arrival(t))
  {
    hide InOrder, Queues, QueuesAll, SystemRuns;
    StepOk(s, FreesWorkload);
    SystemRunsKeep(After(s, FreesWorkload), es, u);
  }
}
