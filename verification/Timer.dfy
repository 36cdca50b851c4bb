/** The timer-event list of lib/timer/timer.c: sorted insertion, the interrupt handler that runs
    what is due, and the clearing of events. */
module Timer {
  import opened Machine

  const MIN_INTERVAL: nat := 10

  /** What an event calls back. */
  datatype Callback = Tick | SwitchContext | Other(id: nat)

  /** An event; `id` tells apart events with equal contents. */
  datatype Event = Event(clock: nat, call: Callback, id: nat)

  /** A count at which the timer may interrupt for a target: not before it, and not too soon. */
  predicate MayInterrupt(x: nat, target: nat, now: nat) {
    target <= x && now + MIN_INTERVAL <= x
  }

  /** The first such count. */
  ghost predicate InTime(c: nat, target: nat, now: nat) {
    MayInterrupt(c, target, now) && forall x: nat :: MayInterrupt(x, target, now) ==> c <= x
  }

  /** set_timeout: the comparator value for a target. */
  function Timeout(target: nat, now: nat): (c: nat)
    ensures InTime(c, target, now)
  {
    if now + MIN_INTERVAL >= target then now + MIN_INTERVAL else target
  }

  // ----- the list as a value -----

  predicate Sorted(es: seq<Event>) {
    forall i, j :: 0 <= i < j < |es| ==> es[i].clock <= es[j].clock
  }

  /** Where add_timer_event puts an event: before the first later one. */
  function Place(es: seq<Event>, clock: nat): (i: nat)
    ensures i <= |es| && (i < |es| ==> es[i].clock > clock)
    ensures forall j :: 0 <= j < i ==> es[j].clock <= clock
  {
    if es == [] || es[0].clock > clock then 0 else 1 + Place(es[1..], clock)
  }

  lemma FirstPlace(es: seq<Event>, clock: nat)
    ensures Place(es, clock) == 0 <==> es == [] || clock < es[0].clock
  {
  }

  function Insert(es: seq<Event>, e: Event): seq<Event> {
    var i := Place(es, e.clock);
    es[..i] + [e] + es[i..]
  }

  /** The events with a given clock, in list order. */
  function At(es: seq<Event>, clock: nat): seq<Event> {
    if es == [] then [] else (if es[0].clock == clock then [es[0]] else []) + At(es[1..], clock)
  }

  lemma {:induction false} AtConcat(a: seq<Event>, b: seq<Event>, clock: nat)
    ensures At(a + b, clock) == At(a, clock) + At(b, clock)
  {
    if a == [] {
      assert a + b == b;
    } else {
      AtConcat(a[1..], b, clock);
      assert (a + b)[1..] == a[1..] + b;
      var first := if a[0].clock == clock then [a[0]] else [];
      Associate(first, At(a[1..], clock), At(b, clock));
    }
  }

  lemma {:induction false} AtNone(es: seq<Event>, clock: nat)
    requires forall i :: 0 <= i < |es| ==> es[i].clock != clock
    ensures At(es, clock) == []
  {
    if es != [] { AtNone(es[1..], clock); }
  }

  /** Insertion keeps the list sorted, adds the one event, and puts it behind all events with the
      same clock: ties fire in the order they were added. */
  lemma {:induction false} InsertTheorem(es: seq<Event>, e: Event)
    requires Sorted(es)
    ensures Sorted(Insert(es, e)) && multiset(Insert(es, e)) == multiset(es) + multiset{e}
    ensures forall c: nat :: At(Insert(es, e), c) == if c == e.clock then At(es, c) + [e] else At(es, c)
  {
    hide At, Place;
    InsertSorted(es, e);
    var i := Place(es, e.clock);
    assert es == es[..i] + es[i..];
    forall c: nat
      ensures At(Insert(es, e), c) == if c == e.clock then At(es, c) + [e] else At(es, c)
    {
      InsertAt(es, e, c);
    }
  }

  lemma {:induction false} InsertSorted(es: seq<Event>, e: Event)
    requires Sorted(es)
    ensures Sorted(Insert(es, e))
    ensures forall j :: Place(es, e.clock) <= j < |es| ==> es[j].clock > e.clock
  {
    hide Place;
    var i := Place(es, e.clock);
    forall j | i <= j < |es|
      ensures es[j].clock > e.clock
    {
      assert es[i].clock <= es[j].clock;
    }
  }

  lemma {:induction false} InsertAt(es: seq<Event>, e: Event, c: nat)
    requires Sorted(es)
    ensures At(Insert(es, e), c) == if c == e.clock then At(es, c) + [e] else At(es, c)
  {
    hide Place, Sorted;
    var i := Place(es, e.clock);
    InsertSorted(es, e);
    AtConcat(es[..i] + [e], es[i..], c);
    AtConcat(es[..i], [e], c);
    AtConcat(es[..i], es[i..], c);
    assert es == es[..i] + es[i..];
    AtOne(e, c);
    if c == e.clock { AtNone(es[i..], c); }
  }

  lemma AtOne(e: Event, c: nat)
    ensures At([e], c) == if e.clock == c then [e] else []
  {
  }

  /** A callback's own add_timer_event calls, one after the other. */
  function InsertAll(es: seq<Event>, added: seq<Event>): seq<Event>
    decreases |added|
  {
    if added == [] then es else InsertAll(Insert(es, added[0]), added[1..])
  }

  // ----- the interrupt handler -----

  /** How many events at the front are due. */
  function Due(es: seq<Event>, now: nat): (n: nat)
    ensures n <= |es|
  {
    if es == [] || es[0].clock > now then 0 else 1 + Due(es[1..], now)
  }

  lemma {:induction false} DueFacts(es: seq<Event>, now: nat)
    ensures var n := Due(es, now); n < |es| ==> es[n].clock > now
    ensures forall i :: 0 <= i < Due(es, now) ==> es[i].clock <= now
  {
    if es != [] && es[0].clock <= now {
      DueFacts(es[1..], now);
    }
  }

  /** What happens to the list before a callback comes back: an event is added, or, while other
      threads run, another handler takes the first event off the list and runs it. */
  datatype Act = Adds(e: Event) | RunsElsewhere

  /** Callbacks add only events after the count that the handler sampled. */
  predicate Later(acts: seq<Act>, now: nat) {
    forall i :: 0 <= i < |acts| ==> acts[i].Adds? ==> acts[i].e.clock > now
  }

  ghost predicate AddsLater(acts: Event -> seq<Act>, now: nat) {
    forall e :: Later(acts(e), now)
  }

  /** The list when a callback comes back, and what ran elsewhere meanwhile. */
  function After(es: seq<Event>, acts: seq<Act>): (r: (seq<Event>, seq<Event>))
    decreases |acts|
  {
    if acts == [] then (es, [])
    else
      match acts[0]
      case Adds(e) => After(Insert(es, e), acts[1..])
      case RunsElsewhere =>
        if es == [] then After(es, acts[1..])
        else var (left, away) := After(es[1..], acts[1..]); (left, [es[0]] + away)
  }

  function Added(acts: seq<Act>): seq<Event> {
    if acts == [] then [] else (if acts[0].Adds? then [acts[0].e] else []) + Added(acts[1..])
  }

  lemma {:induction false} LaterStay(es: seq<Event>, added: seq<Event>, now: nat)
    requires Sorted(es) && forall i :: 0 <= i < |added| ==> added[i].clock > now
    ensures var rs := InsertAll(es, added);
            Sorted(rs) && Due(rs, now) == Due(es, now) && rs[..Due(es, now)] == es[..Due(es, now)]
    decreases |added|
  {
    hide Insert, At, Due, Sorted;
    if added != [] {
      var e, n := added[0], Due(es, now);
      InsertTheorem(es, e);
      DueFacts(es, now);
      InsertLater(es, e, n, now);
      DueIs(Insert(es, e), now, n);
      LaterStay(Insert(es, e), added[1..], now);
    }
  }

  lemma InsertLater(es: seq<Event>, e: Event, n: nat, now: nat)
    requires n <= |es| && e.clock > now && (n < |es| ==> es[n].clock > now)
    requires forall i :: 0 <= i < n ==> es[i].clock <= now
    ensures var fs := Insert(es, e);
            && n < |fs| && fs[..n] == es[..n] && fs[n].clock > now
            && forall i :: 0 <= i < n ==> fs[i].clock <= now
  {
    var i := Place(es, e.clock);
    assert n <= i;
    var fs := Insert(es, e);
    assert fs[..n] == es[..n];
  }

  lemma {:induction false} DueIs(es: seq<Event>, now: nat, n: nat)
    requires n <= |es| && (n < |es| ==> es[n].clock > now) && forall i :: 0 <= i < n ==> es[i].clock <= now
    ensures Due(es, now) == n
  {
    if n > 0 { DueIs(es[1..], now, n - 1); }
  }

  /** The due events that are left are the last of those that were due in es, and the first of them
      went away, before any other. */
  predicate Trimmed(es: seq<Event>, left: seq<Event>, away: seq<Event>, now: nat) {
    var n, d := Due(es, now), Due(left, now);
    && d <= n && n - d <= |away|
    && left[..d] == es[n - d..n] && away[..n - d] == es[..n - d]
    && forall i :: n - d <= i < |away| ==> away[i].clock > now
  }

  /** Whatever happens during a callback, the due events that go away are the first ones. */
  lemma {:induction false} AfterIs(es: seq<Event>, acts: seq<Act>, now: nat)
    requires Sorted(es) && Later(acts, now)
    ensures var (left, away) := After(es, acts);
            Sorted(left) && Trimmed(es, left, away, now) && Due(left, now) <= Due(es, now)
    decreases |acts|
  {
    hide Due, Insert, Sorted, Trimmed;
    if acts == [] {
      Untrimmed(es, now);
    } else {
      var rest := acts[1..];
      assert Later(rest, now);
      match acts[0] {
        case Adds(e) =>
          InsertTheorem(es, e);
          LaterStay(es, [e], now);
          assert InsertAll(es, [e]) == Insert(es, e) by { OneInsert(es, e); }
          AfterIs(Insert(es, e), rest, now);
          var (left, away) := After(Insert(es, e), rest);
          TrimmedInsert(es, Insert(es, e), left, away, now);
        case RunsElsewhere =>
          if es == [] {
            AfterIs(es, rest, now);
          } else {
            DueTail(es, now);
            AfterIs(es[1..], rest, now);
            var (left, away) := After(es[1..], rest);
            TrimmedAway(es, left, away, now);
          }
      }
    }
  }

  lemma OneInsert(es: seq<Event>, e: Event)
    ensures InsertAll(es, [e]) == Insert(es, e)
  {
    hide Insert;
    assert [e][1..] == [];
  }

  lemma Untrimmed(es: seq<Event>, now: nat)
    ensures Trimmed(es, es, [], now)
  {
    hide Due;
  }

  lemma TrimmedInsert(es: seq<Event>, fs: seq<Event>, left: seq<Event>, away: seq<Event>, now: nat)
    requires Trimmed(fs, left, away, now) && Due(fs, now) == Due(es, now)
    requires fs[..Due(es, now)] == es[..Due(es, now)]
    ensures Trimmed(es, left, away, now) && Due(left, now) <= Due(es, now)
  {
    hide Due;
    var n, d := Due(es, now), Due(left, now);
    assert fs[n - d..n] == fs[..n][n - d..] && es[n - d..n] == es[..n][n - d..];
    assert fs[..n - d] == fs[..n][..n - d] && es[..n - d] == es[..n][..n - d];
  }

  lemma DueTail(es: seq<Event>, now: nat)
    requires Sorted(es) && es != []
    ensures Sorted(es[1..])
    ensures if es[0].clock <= now then Due(es[1..], now) == Due(es, now) - 1 else Due(es[1..], now) == Due(es, now) == 0
  {
    if es[0].clock > now && |es| > 1 { assert es[1].clock > now; }
  }

  lemma Shift(es: seq<Event>, i: nat, j: nat)
    requires es != [] && i <= j < |es|
    ensures es[i + 1..j + 1] == es[1..][i..j]
  {
    forall k | 0 <= k < j - i
      ensures es[i + 1..j + 1][k] == es[1..][i..j][k]
    {
      assert es[1..][i + k] == es[i + 1 + k];
    }
  }

  lemma FirstOf(es: seq<Event>, i: nat)
    requires es != [] && i < |es|
    ensures es[..i + 1] == [es[0]] + es[1..][..i]
  {
    forall k | 0 <= k < i + 1
      ensures es[..i + 1][k] == ([es[0]] + es[1..][..i])[k]
    {
      if k > 0 { assert es[1..][k - 1] == es[k]; }
    }
  }

  lemma Join(es: seq<Event>, i: nat, j: nat)
    requires i <= j <= |es|
    ensures es[..i] + es[i..j] == es[..j]
  {
  }

  /** The first event runs elsewhere before the rest happens. */
  lemma TrimmedAway(es: seq<Event>, left: seq<Event>, away: seq<Event>, now: nat)
    requires es != [] && Trimmed(es[1..], left, away, now)
    requires if es[0].clock <= now
             then Due(es[1..], now) == Due(es, now) - 1 else Due(es[1..], now) == Due(es, now) == 0
    ensures Trimmed(es, left, [es[0]] + away, now) && Due(left, now) <= Due(es, now)
  {
    hide Due;
    var fs, all := es[1..], [es[0]] + away;
    var n, d := Due(fs, now), Due(left, now);
    if es[0].clock <= now {
      assert all[..n + 1 - d] == [es[0]] + away[..n - d];
      FirstOf(es, n - d);
      Shift(es, n - d, n);
    }
  }

  /** How often an event occurs. */
  function Copies(xs: seq<Event>, x: Event): nat {
    multiset(xs)[x]
  }

  lemma CopiesConcat(a: seq<Event>, b: seq<Event>, x: Event)
    ensures Copies(a + b, x) == Copies(a, x) + Copies(b, x)
  {
    assert multiset(a + b) == multiset(a) + multiset(b);
  }

  lemma CopiesFirst(xs: seq<Event>, x: Event)
    requires xs != []
    ensures Copies(xs, x) == Copies([xs[0]], x) + Copies(xs[1..], x)
  {
    assert xs == [xs[0]] + xs[1..];
    CopiesConcat([xs[0]], xs[1..], x);
  }

  lemma CopiesInsert(es: seq<Event>, e: Event, x: Event)
    ensures Copies(Insert(es, e), x) == Copies(es, x) + Copies([e], x)
  {
    hide Place, Copies;
    var i := Place(es, e.clock);
    assert es == es[..i] + es[i..];
    CopiesConcat(es[..i], es[i..], x);
    CopiesConcat(es[..i] + [e], es[i..], x);
    CopiesConcat(es[..i], [e], x);
  }

  lemma NoCopies(x: Event)
    ensures Copies([], x) == 0
  {
  }

  /** Nothing is lost during a callback. */
  lemma {:induction false} AfterConserves(es: seq<Event>, acts: seq<Act>, x: Event)
    ensures var (left, away) := After(es, acts);
            Copies(left, x) + Copies(away, x) == Copies(es, x) + Copies(Added(acts), x)
    decreases |acts|
  {
    hide Insert, Copies;
    if acts == [] {
      NoCopies(x);
    } else {
      match acts[0] {
        case Adds(e) =>
          CopiesInsert(es, e, x);
          AfterConserves(Insert(es, e), acts[1..], x);
          CopiesConcat([e], Added(acts[1..]), x);
        case RunsElsewhere =>
          assert Added(acts) == Added(acts[1..]);
          if es == [] {
            AfterConserves(es, acts[1..], x);
          } else {
            AfterConserves(es[1..], acts[1..], x);
            CopiesFirst(es, x);
            CopiesConcat([es[0]], After(es[1..], acts[1..]).1, x);
          }
      }
    }
  }

  /** The handler's loop: pop, run the callback, again while the front is due.  The results are what
      it ran, what ran elsewhere during its callbacks, and the list it leaves. */
  ghost function Handle(es: seq<Event>, now: nat, acts: Event -> seq<Act>): (r: (seq<Event>, seq<Event>, seq<Event>))
    requires Sorted(es) && AddsLater(acts, now)
    decreases Due(es, now)
  {
    if es == [] || es[0].clock > now then ([], [], es)
    else
      DueTail(es, now);
      AfterIs(es[1..], acts(es[0]), now);
      var (fs, gone) := After(es[1..], acts(es[0]));
      var (ran, away, left) := Handle(fs, now, acts);
      ([es[0]] + ran, gone + away, left)
  }

  /** One round of the handler's loop. */
  lemma HandleStep(es: seq<Event>, now: nat, acts: Event -> seq<Act>)
    requires Sorted(es) && AddsLater(acts, now)
    ensures es == [] || es[0].clock > now ==> Handle(es, now, acts) == ([], [], es)
    ensures es != [] && es[0].clock <= now ==>
              var (fs, gone) := After(es[1..], acts(es[0]));
              && Sorted(es[1..]) && Sorted(fs) && Due(fs, now) < Due(es, now)
              && var (ran, away, left) := Handle(fs, now, acts);
                 Handle(es, now, acts) == ([es[0]] + ran, gone + away, left)
  {
    hide After, AddsLater;
    if es != [] && es[0].clock <= now {
      assert Later(acts(es[0]), now) by { LaterOf(acts, now, es[0]); }
      DueTail(es, now);
      AfterIs(es[1..], acts(es[0]), now);
    }
  }

  lemma LaterOf(acts: Event -> seq<Act>, now: nat, e: Event)
    requires AddsLater(acts, now)
    ensures Later(acts(e), now)
  {
  }

  /** The events of xs that are due, in order. */
  function DueOnly(xs: seq<Event>, now: nat): seq<Event> {
    if xs == [] then [] else (if xs[0].clock <= now then [xs[0]] else []) + DueOnly(xs[1..], now)
  }

  lemma {:induction false} DueOnlyConcat(xs: seq<Event>, ys: seq<Event>, now: nat)
    ensures DueOnly(xs + ys, now) == DueOnly(xs, now) + DueOnly(ys, now)
  {
    if xs == [] {
      assert xs + ys == ys;
    } else {
      assert (xs + ys)[1..] == xs[1..] + ys;
      DueOnlyConcat(xs[1..], ys, now);
      Associate(if xs[0].clock <= now then [xs[0]] else [], DueOnly(xs[1..], now), DueOnly(ys, now));
    }
  }

  lemma {:induction false} DueOnlyIs(xs: seq<Event>, k: nat, now: nat)
    requires k <= |xs| && (forall i :: 0 <= i < k ==> xs[i].clock <= now)
             && forall i :: k <= i < |xs| ==> xs[i].clock > now
    ensures DueOnly(xs, now) == xs[..k]
  {
    if xs != [] {
      DueOnlyIs(xs[1..], if k == 0 then 0 else k - 1, now);
      if k > 0 { assert xs[..k] == [xs[0]] + xs[1..][..k - 1]; }
    }
  }

  /** xs and ys, each in its order, together make up zs. */
  ghost predicate Woven(xs: seq<Event>, ys: seq<Event>, zs: seq<Event>)
    decreases |zs|
  {
    if zs == [] then xs == [] && ys == []
    else
      || (xs != [] && xs[0] == zs[0] && Woven(xs[1..], ys, zs[1..]))
      || (ys != [] && ys[0] == zs[0] && Woven(xs, ys[1..], zs[1..]))
  }

  lemma {:induction false} WovenBehind(ps: seq<Event>, xs: seq<Event>, ys: seq<Event>, zs: seq<Event>)
    requires Woven(xs, ys, zs)
    ensures Woven(xs, ps + ys, ps + zs)
  {
    if ps == [] {
      assert ps + ys == ys && ps + zs == zs;
    } else {
      WovenBehind(ps[1..], xs, ys, zs);
      assert (ps + ys)[1..] == ps[1..] + ys && (ps + zs)[1..] == ps[1..] + zs;
    }
  }

  lemma {:induction false} WovenLength(xs: seq<Event>, ys: seq<Event>, zs: seq<Event>)
    requires Woven(xs, ys, zs)
    ensures |xs| + |ys| == |zs| && (ys == [] ==> xs == zs)
    decreases |zs|
  {
    if zs != [] {
      if xs != [] && xs[0] == zs[0] && Woven(xs[1..], ys, zs[1..]) {
        WovenLength(xs[1..], ys, zs[1..]);
      } else {
        WovenLength(xs, ys[1..], zs[1..]);
      }
    }
  }

  /** All that happens during the callbacks of some events. */
  function AllAdded(es: seq<Event>, acts: Event -> seq<Act>): seq<Event> {
    if es == [] then [] else Added(acts(es[0])) + AllAdded(es[1..], acts)
  }

  /** Each event that was due at the count the handler sampled runs once, here or elsewhere, in
      list order in both places; when the handler is done nothing due is left.  It runs exactly the
      events that were due just when none of those ran elsewhere. */
  lemma {:induction false} HandleTheorem(es: seq<Event>, now: nat, acts: Event -> seq<Act>)
    requires Sorted(es) && AddsLater(acts, now)
    ensures var (ran, away, left) := Handle(es, now, acts); var due := es[..Due(es, now)];
            && Woven(ran, DueOnly(away, now), due)
            && Sorted(left) && (left != [] ==> left[0].clock > now)
            && (ran == due <==> forall e :: e in away ==> e.clock > now)
    decreases Due(es, now)
  {
    hide Due, After, Sorted, Added, DueOnly, Woven, AddsLater, Trimmed;
    var (ran, away, left) := Handle(es, now, acts);
    var n := Due(es, now);
    HandleStep(es, now, acts);
    if es == [] || es[0].clock > now {
      DueNone(es, now);
    } else {
      LaterOf(acts, now, es[0]);
      DueTail(es, now);
      AfterIs(es[1..], acts(es[0]), now);
      var (fs, gone) := After(es[1..], acts(es[0]));
      HandleTheorem(fs, now, acts);
      var (ran', away', _) := Handle(fs, now, acts);
      WeaveOn(es, fs, gone, ran', away', now);
    }
    WovenLength(ran, DueOnly(away, now), es[..n]);
    NoneDue(away, now);
  }

  lemma DueNone(es: seq<Event>, now: nat)
    requires es == [] || es[0].clock > now
    ensures Due(es, now) == 0 && Woven([], DueOnly([], now), es[..0])
  {
  }

  lemma {:induction false} NoneDue(xs: seq<Event>, now: nat)
    ensures DueOnly(xs, now) == [] <==> forall e :: e in xs ==> e.clock > now
  {
    if xs != [] {
      NoneDue(xs[1..], now);
      assert xs == [xs[0]] + xs[1..];
    }
  }

  lemma WeaveOn(es: seq<Event>, fs: seq<Event>, gone: seq<Event>, ran: seq<Event>, away: seq<Event>, now: nat)
    requires es != [] && es[0].clock <= now && Due(es[1..], now) == Due(es, now) - 1
    requires Trimmed(es[1..], fs, gone, now) && Woven(ran, DueOnly(away, now), fs[..Due(fs, now)])
    ensures Woven([es[0]] + ran, DueOnly(gone + away, now), es[..Due(es, now)])
  {
    hide Woven, DueOnly, Due;
    var rest, n, d := es[1..], Due(es, now), Due(fs, now);
    var k := n - 1 - d;
    assert DueOnly(gone + away, now) == rest[..k] + DueOnly(away, now) by {
      GoneIsDue(rest, gone, k, now);
      DueOnlyIs(gone, k, now);
      DueOnlyConcat(gone, away, now);
    }
    WeaveParts(es[0], rest, k, n - 1, ran, DueOnly(away, now));
    assert [es[0]] + rest[..n - 1] == es[..n] by { FirstOf(es, n - 1); }
  }

  /** The first k of es ran elsewhere, and what follows is woven. */
  lemma WeaveParts(e: Event, es: seq<Event>, k: nat, m: nat, ran: seq<Event>, away: seq<Event>)
    requires k <= m <= |es| && Woven(ran, away, es[k..m])
    ensures Woven([e] + ran, es[..k] + away, [e] + es[..m])
  {
    hide Woven;
    WovenBehind(es[..k], ran, away, es[k..m]);
    Join(es, k, m);
    WovenHere(e, ran, es[..k] + away, es[..m]);
  }

  lemma GoneIsDue(es: seq<Event>, gone: seq<Event>, k: nat, now: nat)
    requires k <= |gone| && k <= Due(es, now) && gone[..k] == es[..k]
    ensures forall i :: 0 <= i < k ==> gone[i].clock <= now
  {
    DueFacts(es, now);
    forall i | 0 <= i < k
      ensures gone[i].clock <= now
    {
      assert gone[i] == gone[..k][i] == es[..k][i];
    }
  }

  /** Every event that was there, or was added meanwhile, ran here, ran elsewhere, or is left. */
  lemma {:induction false} HandleConserves(es: seq<Event>, now: nat, acts: Event -> seq<Act>, x: Event)
    requires Sorted(es) && AddsLater(acts, now)
    ensures var (ran, away, left) := Handle(es, now, acts);
            Copies(ran, x) + Copies(away, x) + Copies(left, x) == Copies(es, x) + Copies(AllAdded(ran, acts), x)
    decreases Due(es, now)
  {
    hide Due, After, Sorted, Added, AddsLater, Copies;
    HandleStep(es, now, acts);
    NoCopies(x);
    if es != [] && es[0].clock <= now {
      var added := Added(acts(es[0]));
      AfterConserves(es[1..], acts(es[0]), x);
      var (fs, gone) := After(es[1..], acts(es[0]));
      HandleConserves(fs, now, acts, x);
      var (ran, away, left) := Handle(fs, now, acts);
      CopiesFirst(es, x);
      CopiesConcat([es[0]], ran, x);
      CopiesConcat(gone, away, x);
      CopiesConcat(added, AllAdded(ran, acts), x);
      assert ([es[0]] + ran)[1..] == ran;
      assert AllAdded([es[0]] + ran, acts) == added + AllAdded(ran, acts);
    }
  }

  lemma WovenHere(e: Event, xs: seq<Event>, ys: seq<Event>, zs: seq<Event>)
    requires Woven(xs, ys, zs)
    ensures Woven([e] + xs, ys, [e] + zs)
  {
    assert ([e] + xs)[1..] == xs && ([e] + zs)[1..] == zs;
  }

  /** Only the callback that switches threads lets another handler in, for one event. */
  function OnSwitch(e: Event): seq<Act> {
    if e.call == SwitchContext then [RunsElsewhere] else []
  }

  /** A switch of threads due at 10 and a tick due at 11, handled at 12: while the first callback is
      away another handler runs the tick. */
  lemma TickRunsElsewhere()
    ensures var es := [Event(10, SwitchContext, 0), Event(11, Tick, 1)];
            && Sorted(es) && AddsLater(OnSwitch, 12) && es[..Due(es, 12)] == es
            && Handle(es, 12, OnSwitch) == ([es[0]], [es[1]], [])
  {
    hide Due, Handle;
    var es := [Event(10, SwitchContext, 0), Event(11, Tick, 1)];
    DueIs(es, 12, 2);
    HandleStep(es, 12, OnSwitch);
    TakeOne(es[1]);
    assert es[1..] == [es[1]];
    HandleStep([], 12, OnSwitch);
    assert [es[0]] + [] == [es[0]] && [es[1]] + [] == [es[1]];
  }

  lemma TakeOne(e: Event)
    ensures After([e], [RunsElsewhere]) == ([], [e])
  {
    var es: seq<Event>, acts: seq<Act> := [e], [RunsElsewhere];
    assert es[1..] == [] && acts[1..] == [];
    assert After(es[1..], acts[1..]) == ([], []);
    var none: seq<Event> := [];
    assert After(es, acts) == (none, [es[0]] + none);
    assert [e] + none == [e];
  }

  predicate OnlyAdds(acts: seq<Act>) {
    forall i :: 0 <= i < |acts| ==> acts[i].Adds?
  }

  /** No callback lets other handlers run. */
  ghost predicate StaysHere(acts: Event -> seq<Act>) {
    forall e :: OnlyAdds(acts(e))
  }

  lemma StaysOf(acts: Event -> seq<Act>, e: Event)
    requires StaysHere(acts)
    ensures OnlyAdds(acts(e))
  {
  }

  /** While no callback lets other handlers run, the list left is the rest of the events with what
      the callbacks added put in, in order. */
  lemma {:induction false} HandleAlone(es: seq<Event>, now: nat, acts: Event -> seq<Act>)
    requires Sorted(es) && AddsLater(acts, now)
    requires StaysHere(acts)
    ensures var (ran, away, left) := Handle(es, now, acts); var n := Due(es, now);
            ran == es[..n] && away == [] && left == InsertAll(es[n..], AllAdded(es[..n], acts))
    decreases Due(es, now)
  {
    hide Due, Insert, InsertAll, Sorted, After, AddsLater, Later, Added, StaysHere, OnlyAdds, AllAdded;
    var n := Due(es, now);
    HandleStep(es, now, acts);
    if es == [] || es[0].clock > now {
      DueNone(es, now);
      NothingDue(es, now);
      NoneAdded(es, acts);
    } else {
      LaterOf(acts, now, es[0]);
      StaysOf(acts, es[0]);
      DueTail(es, now);
      var added := Added(acts(es[0]));
      AddedOnly(es[1..], acts(es[0]), now);
      LaterStay(es[1..], added, now);
      var fs := InsertAll(es[1..], added);
      HandleAlone(fs, now, acts);
      FirstOf(es, n - 1);
      Behind(es[1..], added, now);
      DropBoth(es, n);
      AllAddedFirst(es, n, acts);
      InsertAllConcat(es[n..], added, AllAdded(es[1..][..n - 1], acts));
    }
  }

  lemma NoneAdded(es: seq<Event>, acts: Event -> seq<Act>)
    ensures es[0..] == es && es[..0] == [] && AllAdded(es[..0], acts) == []
  {
  }

  lemma DropBoth(es: seq<Event>, n: nat)
    requires 0 < n <= |es|
    ensures es[1..][n - 1..] == es[n..]
  {
  }

  lemma AllAddedFirst(es: seq<Event>, n: nat, acts: Event -> seq<Act>)
    requires 0 < n <= |es|
    ensures AllAdded(es[..n], acts) == Added(acts(es[0])) + AllAdded(es[1..][..n - 1], acts)
  {
    assert es[..n][1..] == es[1..][..n - 1];
  }

  lemma {:induction false} AddedOnly(es: seq<Event>, acts: seq<Act>, now: nat)
    requires Later(acts, now) && OnlyAdds(acts)
    ensures After(es, acts) == (InsertAll(es, Added(acts)), [])
    ensures forall i :: 0 <= i < |Added(acts)| ==> Added(acts)[i].clock > now
    decreases |acts|
  {
    hide Insert;
    if acts != [] {
      assert Later(acts[1..], now) && OnlyAdds(acts[1..]);
      AddedOnly(Insert(es, acts[0].e), acts[1..], now);
    }
  }

  lemma {:induction false} InsertAllConcat(es: seq<Event>, a: seq<Event>, b: seq<Event>)
    ensures InsertAll(es, a + b) == InsertAll(InsertAll(es, a), b)
    decreases |a|
  {
    if a == [] {
      assert a + b == b;
    } else {
      assert (a + b)[1..] == a[1..] + b;
      InsertAllConcat(Insert(es, a[0]), a[1..], b);
    }
  }

  lemma NothingDue(es: seq<Event>, now: nat)
    requires Due(es, now) == 0
    ensures InsertAll(es, []) == es
  {
  }

  /** Events after the sampled count go behind the due ones. */
  lemma {:induction false} Behind(es: seq<Event>, added: seq<Event>, now: nat)
    requires Sorted(es) && forall i :: 0 <= i < |added| ==> added[i].clock > now
    ensures var n := Due(es, now); var rs := InsertAll(es, added);
            |rs| >= n && rs[n..] == InsertAll(es[n..], added)
    decreases |added|
  {
    hide Due, Place, At, Sorted, Insert;
    var n := Due(es, now);
    if added != [] {
      var e := added[0];
      InsertTheorem(es, e);
      var fs := Insert(es, e);
      LaterStay(es, [e], now);
      assert InsertAll(es, [e]) == fs;
      Behind(fs, added[1..], now);
      DueFacts(es, now);
      InsertBehind(es, e, n);
    }
  }

  lemma InsertBehind(es: seq<Event>, e: Event, n: nat)
    requires n <= |es| && forall i :: 0 <= i < n ==> es[i].clock <= e.clock
    ensures |Insert(es, e)| >= n && Insert(es, e)[n..] == Insert(es[n..], e)
  {
    PlaceBehind(es, e.clock, n);
    var i := Place(es, e.clock);
    assert es[..i][n..] == es[n..][..i - n];
  }

  lemma {:induction false} PlaceBehind(es: seq<Event>, clock: nat, n: nat)
    requires n <= |es| && forall i :: 0 <= i < n ==> es[i].clock <= clock
    ensures Place(es, clock) == n + Place(es[n..], clock)
  {
    if n > 0 {
      PlaceBehind(es[1..], clock, n - 1);
      assert es[1..][n - 1..] == es[n..];
    } else {
      assert es[0..] == es;
    }
  }

  // ----- a round of the loop, split -----

  /** What a round of the handler's loop runs, and the list it leaves; `away` ran elsewhere. */
  datatype Round = Round(ran: Option<Event>, left: seq<Event>, away: seq<Event>)

  /** The loop's test has found the first event due, and then, before the first or the second of the
      two statements of the pop, another handler comes in.  None is a read through null. */
  function SplitRound(es: seq<Event>, acts: seq<Act>, second: bool): Round
    requires es != []
  {
    var (fs, away) := After(es, acts);
    var ran := if second then Some(es[0]) else if fs == [] then None else Some(fs[0]);
    Round(ran, if fs == [] then [] else fs[1..], away)
  }

  /** An event that was due has run, and every event ran once or is left. */
  ghost predicate RoundOk(es: seq<Event>, acts: seq<Act>, r: Round, now: nat) {
    && r.ran.Some? && r.ran.value.clock <= now
    && forall x :: Accounted(es, acts, r, x)
  }

  predicate Accounted(es: seq<Event>, acts: seq<Act>, r: Round, x: Event)
    requires r.ran.Some?
  {
    Copies([r.ran.value], x) + Copies(r.left, x) + Copies(r.away, x) == Copies(es, x) + Copies(Added(acts), x)
  }

  /** How many events other handlers take. */
  function Pops(acts: seq<Act>): nat {
    if acts == [] then 0 else (if acts[0].RunsElsewhere? then 1 else 0) + Pops(acts[1..])
  }

  lemma {:induction false} AfterDue(es: seq<Event>, acts: seq<Act>, now: nat)
    requires Sorted(es) && Later(acts, now)
    ensures Due(After(es, acts).0, now) == if Pops(acts) < Due(es, now) then Due(es, now) - Pops(acts) else 0
    decreases |acts|
  {
    hide Due, Insert, Sorted;
    if acts != [] {
      assert Later(acts[1..], now);
      match acts[0] {
        case Adds(e) =>
          InsertTheorem(es, e);
          LaterStay(es, [e], now);
          OneInsert(es, e);
          AfterDue(Insert(es, e), acts[1..], now);
        case RunsElsewhere =>
          if es == [] {
            NoneThere(now);
            AfterDue(es, acts[1..], now);
          } else {
            DueTail(es, now);
            DueFirst(es, now);
            AfterDue(es[1..], acts[1..], now);
          }
      }
    }
  }

  lemma NoneThere(now: nat)
    ensures Due([], now) == 0
  {
  }

  lemma DueFirst(es: seq<Event>, now: nat)
    requires es != []
    ensures Due(es, now) > 0 <==> es[0].clock <= now
  {
  }

  /** A round split before its first statement is right exactly if some due event is left for it; one
      that is split before its second statement exactly if nobody took an event in between. */
  lemma SplitRoundExact(es: seq<Event>, acts: seq<Act>, second: bool, now: nat)
    requires Sorted(es) && Later(acts, now) && es != [] && es[0].clock <= now
    requires es[0] !in es[1..] && es[0] !in Added(acts)
    ensures RoundOk(es, acts, SplitRound(es, acts, second), now)
            <==> if second then Pops(acts) == 0 else Pops(acts) < Due(es, now)
  {
    hide Due, Insert, Sorted, After, Copies, Trimmed;
    var (fs, away) := After(es, acts);
    var r := SplitRound(es, acts, second);
    DueFirst(es, now);
    AfterDue(es, acts, now);
    if fs != [] { DueFirst(fs, now); } else { NoneThere(now); }
    if second && Pops(acts) > 0 {
      TakenTwice(es, acts, now);
      assert !Accounted(es, acts, r, es[0]);
    } else if fs != [] {
      if second { FirstStays(es, acts, now); }
      forall x
        ensures r.ran == Some(fs[0]) ==> Accounted(es, acts, r, x)
      {
        AfterConserves(es, acts, x);
        CopiesFirst(fs, x);
      }
    }
  }

  /** The event that both have. */
  lemma TakenTwice(es: seq<Event>, acts: seq<Act>, now: nat)
    requires Sorted(es) && Later(acts, now) && es != [] && es[0].clock <= now && Pops(acts) > 0
    requires es[0] !in es[1..] && es[0] !in Added(acts)
    ensures var x := es[0]; Copies([x], x) + Copies(After(es, acts).1, x) > Copies(es, x) + Copies(Added(acts), x)
  {
    hide Due, Insert, Sorted, After;
    var x := es[0];
    var (left, away) := After(es, acts);
    AfterIs(es, acts, now);
    AfterDue(es, acts, now);
    DueFirst(es, now);
    var k := Due(es, now) - Due(left, now);
    assert away[0] == away[..k][0] == es[..k][0] == x;
    assert es == [x] + es[1..];
  }

  lemma FirstStays(es: seq<Event>, acts: seq<Act>, now: nat)
    requires Sorted(es) && Later(acts, now) && es != [] && es[0].clock <= now && Pops(acts) == 0
    ensures var fs := After(es, acts).0; fs != [] && fs[0] == es[0]
  {
    hide Due, Insert, Sorted, After;
    AfterIs(es, acts, now);
    AfterDue(es, acts, now);
    DueFirst(es, now);
    var fs, n := After(es, acts).0, Due(es, now);
    assert fs[..n][0] == es[0..n][0];
  }

  // ----- clear_timer_event -----

  /** The events whose callback is not the given one. */
  function Others(es: seq<Event>, call: Callback): seq<Event> {
    if es == [] then [] else (if es[0].call == call then [] else [es[0]]) + Others(es[1..], call)
  }

  lemma {:induction false} OthersMembers(es: seq<Event>, call: Callback)
    ensures forall e :: e in Others(es, call) <==> e in es && e.call != call
  {
    if es != [] {
      OthersMembers(es[1..], call);
      assert es == [es[0]] + es[1..];
    }
  }

  lemma {:induction false} OthersSorted(es: seq<Event>, call: Callback)
    requires Sorted(es)
    ensures Sorted(Others(es, call))
  {
    if es != [] {
      OthersSorted(es[1..], call);
      OthersMembers(es[1..], call);
      var rest := Others(es[1..], call);
      forall i | 0 <= i < |rest|
        ensures es[0].clock <= rest[i].clock
      {
        assert rest[i] in rest;
      }
    }
  }

  lemma {:induction false} OthersAgree(es: seq<Event>, f: Callback, g: Callback)
    requires forall e :: e in es ==> (e.call == f <==> e.call == g)
    ensures Others(es, f) == Others(es, g)
  {
    if es != [] {
      assert es[0] in es;
      OthersAgree(es[1..], f, g);
    }
  }

  lemma {:induction false} OthersConcat(a: seq<Event>, b: seq<Event>, call: Callback)
    ensures Others(a + b, call) == Others(a, call) + Others(b, call)
  {
    if a == [] {
      assert a + b == b;
    } else {
      OthersConcat(a[1..], b, call);
      assert (a + b)[1..] == a[1..] + b;
      var first := if a[0].call == call then [] else [a[0]];
      Associate(first, Others(a[1..], call), Others(b, call));
    }
  }

  /** Dropping one event with the callback. */
  lemma OthersDrop(es: seq<Event>, i: nat, call: Callback)
    requires i < |es| && es[i].call == call
    ensures Others(es[..i] + es[i + 1..], call) == Others(es, call)
  {
    OthersConcat(es[..i], es[i + 1..], call);
    OthersConcat(es[..i], [es[i]] + es[i + 1..], call);
    assert es == es[..i] + ([es[i]] + es[i + 1..]);
    assert ([es[i]] + es[i + 1..])[1..] == es[i + 1..];
  }

  lemma {:induction false} OthersAll(es: seq<Event>, call: Callback)
    requires forall i :: 0 <= i < |es| ==> es[i].call != call
    ensures Others(es, call) == es
  {
    if es != [] { OthersAll(es[1..], call); }
  }

  lemma OthersEmpty(call: Callback)
    ensures Others([], call) == []
  {
  }

  /** clear_timer_event ignores its argument and drops the ticks.  It does what its interface says
      exactly when the list holds no tick that was not meant, and nothing meant that is no tick. */
  lemma ClearExact(es: seq<Event>, call: Callback)
    ensures Others(es, Tick) == Others(es, call) <==> forall e :: e in es ==> (e.call == Tick <==> e.call == call)
  {
    OthersMembers(es, Tick);
    OthersMembers(es, call);
    if forall e :: e in es ==> (e.call == Tick <==> e.call == call) {
      OthersAgree(es, Tick, call);
    }
  }

  // ----- the code -----

  class TimerEvent {
    const event: Event
    var next: TimerEvent?

    constructor (e: Event)
      ensures event == e && next == null
    {
      event := e;
      next := null;
    }
  }

  /** The list of events behind `head`, and the core timer: its comparator and its enable bit.
      `seen` is the latest count that was read from it. */
  class EventQueue {
    var head: TimerEvent?
    var enabled: bool
    var comparator: nat
    ghost var nodes: seq<TimerEvent>
    ghost var seen: nat

    ghost predicate Linked()
      reads this`head, this`nodes, nodes
    {
      && (forall i, j :: 0 <= i < j < |nodes| ==> nodes[i] != nodes[j])
      && head == (if nodes == [] then null else nodes[0])
      && forall i: nat :: i < |nodes| ==> Placed(i)
    }

    ghost predicate Placed(i: nat)
      requires i < |nodes|
      reads this`nodes, nodes
    {
      nodes[i].next == if i + 1 < |nodes| then nodes[i + 1] else null
    }

    ghost function Objects(): set<TimerEvent>
      reads this`nodes
    {
      set n | n in nodes
    }

    ghost function View(): (es: seq<Event>)
      reads this`nodes
      ensures |es| == |nodes|
    {
      Events(nodes)
    }

    static ghost function Events(ns: seq<TimerEvent>): (es: seq<Event>)
      ensures |es| == |ns| && forall i :: 0 <= i < |ns| ==> es[i] == ns[i].event
    {
      seq(|ns|, i requires 0 <= i < |ns| => ns[i].event)
    }

    /** The comparator is not set past the first event, except for the minimal interval. */
    ghost predicate Aimed()
      reads this`nodes, this`comparator, this`seen
    {
      nodes != [] ==> comparator <= nodes[0].event.clock || comparator <= seen + MIN_INTERVAL
    }

    /** The invariant while the timer may be masked. */
    ghost predicate Intact()
      reads this`head, this`nodes, this`comparator, this`seen, nodes
    {
      Linked() && Sorted(View()) && Aimed()
    }

    /** Whenever there are events, the timer is on and will not sleep past the first. */
    ghost predicate Valid()
      reads this, nodes
    {
      Intact() && (nodes != [] ==> enabled)
    }

    /** init_core_timer */
    constructor ()
      ensures Valid() && View() == []
    {
      head, enabled, comparator, nodes, seen := null, false, 0, [], 0;
    }

    /** The search loop of add_timer_event. */
    method FindPlace(clock: nat) returns (prev: TimerEvent?, iter: TimerEvent?, ghost i: nat)
      requires Linked()
      ensures i == Place(View(), clock) <= |nodes|
      ensures iter == (if i < |nodes| then nodes[i] else null)
      ensures prev == (if i > 0 then nodes[i - 1] else null)
    {
      hide Place;
      prev, iter, i := null, head, 0;
      while iter != null
        invariant i <= |nodes| && iter == (if i < |nodes| then nodes[i] else null)
        invariant prev == (if i > 0 then nodes[i - 1] else null)
        invariant forall j :: 0 <= j < i ==> View()[j].clock <= clock
        decreases |nodes| - i
      {
        assert Placed(i);
        if iter.event.clock > clock {
          break;
        }
        prev := iter;
        iter := iter.next;
        i := i + 1;
      }
      PlaceIs(View(), clock, i);
    }

    /** Linking e in between two neighbours. */
    method Splice(e: TimerEvent, prev: TimerEvent?, iter: TimerEvent?, ghost i: nat)
      requires Linked() && e !in nodes && i <= |nodes|
      requires iter == (if i < |nodes| then nodes[i] else null)
      requires prev == (if i > 0 then nodes[i - 1] else null)
      modifies this`head, this`nodes, Objects(), e
      ensures Linked() && nodes == old(nodes)[..i] + [e] + old(nodes)[i..]
      ensures View() == old(View())[..i] + [e.event] + old(View())[i..] && Objects() == old(Objects()) + {e}
    {
      hide Events;
      LinkedAt();
      EventsSplice(nodes, e, i);
      ghost var before := nodes;
      e.next := iter;
      nodes := before[..i] + [e] + before[i..];
      if prev != null {
        prev.next := e;
      } else {
        head := e;
      }
      forall k: nat | k < |nodes|
        ensures Placed(k)
      {
        if k < i {
          assert nodes[k] == before[k] && (k + 1 < i ==> nodes[k + 1] == before[k + 1]);
        } else if k > i {
          assert nodes[k] == before[k - 1] && (k + 1 < |nodes| ==> nodes[k + 1] == before[k]);
        }
      }
    }

    static lemma EventsSplice(ns: seq<TimerEvent>, e: TimerEvent, i: nat)
      requires i <= |ns|
      ensures Events(ns[..i] + [e] + ns[i..]) == Events(ns)[..i] + [e.event] + Events(ns)[i..]
    {
    }

    /** add_timer_event, with the counts that it and then set_timeout read */
    method AddTimerEvent(offset: nat, call: Callback, id: nat, now: nat, later: nat)
      requires Intact() && seen <= now <= later
      modifies this, Objects()
      ensures Valid() && enabled && View() == Insert(old(View()), Event(now + offset, call, id)) && seen == later
      ensures old(View()) == [] || now + offset < old(View())[0].clock ==> InTime(comparator, now + offset, later)
      ensures old(View()) != [] && now + offset >= old(View())[0].clock ==> comparator == old(comparator)
      ensures fresh(Objects() - old(Objects()))
    {
      hide Insert, Sorted, Linked, Aimed, InTime;
      var event := new TimerEvent(Event(now + offset, call, id));
      Add(event, later);
    }

    /** The rest of add_timer_event, once the event is allocated and filled. */
    method Add(e: TimerEvent, now: nat)
      requires Intact() && e !in nodes && seen <= now
      modifies this, Objects(), e
      ensures Valid() && View() == Insert(old(View()), e.event) && seen == now && enabled
      ensures Objects() == old(Objects()) + {e}
      ensures old(View()) == [] || e.event.clock < old(View())[0].clock ==> InTime(comparator, e.event.clock, now)
      ensures old(View()) != [] && e.event.clock >= old(View())[0].clock ==> comparator == old(comparator)
    {
      hide Place, Sorted, Linked, Insert, View, Objects;
      ghost var was := View();
      InsertSorted(was, e.event);
      FirstPlace(was, e.event.clock);
      enabled := false;
      var prev, iter; ghost var i;
      prev, iter, i := FindPlace(e.event.clock);
      Splice(e, prev, iter, i);
      seen := now;
      if prev == null {
        comparator := Timeout(e.event.clock, now);
      }
      enabled := true;
      InsertIs(was, e.event, i);
    }

    static lemma InsertIs(es: seq<Event>, e: Event, i: nat)
      requires i == Place(es, e.clock)
      ensures Insert(es, e) == es[..i] + [e] + es[i..]
    {
    }

    lemma HeadView()
      requires Linked()
      ensures head == null <==> View() == []
      ensures head != null ==> head in nodes && View()[0] == head.event
    {
    }

    /** What happens to the list before a callback comes back. */
    method Undergo(acts: seq<Act>, now: nat) returns (ghost away: seq<Event>)
      requires Intact() && seen <= now
      modifies this, Objects()
      ensures Intact() && (View(), away) == After(old(View()), acts) && seen <= now
      ensures fresh(Objects() - old(Objects()))
    {
      hide Insert, Sorted, Linked, Aimed;
      away := [];
      ghost var start := After(View(), acts);
      assert acts[0..] == acts && [] + start.1 == start.1;
      for i := 0 to |acts|
        invariant Intact() && seen <= now && fresh(Objects() - old(Objects()))
        invariant var (left, more) := After(View(), acts[i..]); (left, away + more) == start
      {
        assert acts[i..][0] == acts[i] && acts[i..][1..] == acts[i + 1..];
        HeadView();
        match acts[i] {
          case Adds(e) =>
            var added := new TimerEvent(e);
            Add(added, now);
          case RunsElsewhere =>
            if head != null {
              ghost var more := After(View()[1..], acts[i + 1..]).1;
              assert away + ([View()[0]] + more) == (away + [View()[0]]) + more;
              away := away + [View()[0]];
              PopHead();
            }
        }
      }
      assert acts[|acts|..] == [];
      assert away + [] == away;
    }

    /** The first event's callback runs, after the event has left the list. */
    method RunFront(now: nat, acts: Event -> seq<Act>) returns (ghost away: seq<Event>)
      requires Intact() && seen <= now && head != null
      modifies this, Objects()
      ensures Intact() && seen <= now && fresh(Objects() - old(Objects()))
      ensures old(View()) != [] && (View(), away) == After(old(View())[1..], acts(old(View())[0]))
    {
      hide After, Sorted, Linked, Aimed;
      HeadView();
      var temp := head;
      PopHead();
      away := Undergo(acts(temp.event), now);
    }

    /** timer_interrupt_handler, with the count it sampled and the one set_timeout reads; `acts` says
        what happens to the list before a callback comes back. */
    method Interrupt(now: nat, later: nat, acts: Event -> seq<Act>)
      returns (ghost ran: seq<Event>, ghost away: seq<Event>)
      requires Intact() && seen <= now <= later && AddsLater(acts, now)
      modifies this, Objects()
      ensures Valid() && (ran, away, View()) == Handle(old(View()), now, acts)
      ensures View() != [] ==> enabled && InTime(comparator, View()[0].clock, later)
      ensures fresh(Objects() - old(Objects()))
    {
      hide After, Sorted, Due, Handle, Linked, AddsLater, Aimed, Events;
      ran, away := [], [];
      ghost var start := View();
      ghost var all := Handle(start, now, acts);
      assert [] + all.0 == all.0 && [] + all.1 == all.1;
      while head != null
        invariant Intact() && seen <= now
        invariant fresh(Objects() - old(Objects()))
        invariant var (r, a, l) := Handle(View(), now, acts); (ran + r, away + a, l) == all
        decreases Due(View(), now)
      {
        HandleStep(View(), now, acts);
        HeadView();
        if head.event.clock > now {
          break;
        }
        ghost var first := head.event;
        ghost var gone := RunFront(now, acts);
        ghost var (r, a, _) := Handle(View(), now, acts);
        assert ran + ([first] + r) == (ran + [first]) + r && away + (gone + a) == (away + gone) + a;
        ran, away := ran + [first], away + gone;
      }
      HandleStep(View(), now, acts);
      HeadView();
      assert ran + [] == ran && away + [] == away;
      if head != null {
        Rearm(later);
      }
    }

    /** set_timeout for the first event, and the timer switched on */
    method Rearm(now: nat)
      requires Intact() && head != null && seen <= now
      modifies this`comparator, this`enabled, this`seen
      ensures Valid() && View() == old(View()) != [] && enabled && InTime(comparator, View()[0].clock, now)
    {
      comparator := Timeout(head.event.clock, now);
      enabled := true;
      seen := now;
    }

    /** events.head = events.head->next */
    method PopHead()
      requires Intact() && head != null
      modifies this`head, this`nodes
      ensures Intact() && nodes == old(nodes)[1..] && View() == old(View())[1..]
      ensures Objects() <= old(Objects())
    {
      LinkedAt();
      nodes := nodes[1..];
      head := head.next;
      forall k: nat | k < |nodes|
        ensures Placed(k)
      {
        assert nodes[k] == old(nodes)[k + 1];
      }
    }

    /** clear_timer_event; the argument is not looked at */
    method Clear(call: Callback)
      requires Intact()
      modifies this, Objects()
      ensures Valid() && View() == Others(old(View()), Tick)
    {
      hide Sorted, Others;
      OthersSorted(View(), Tick);
      OthersEmpty(Tick);
      enabled := false;
      while head != null
        invariant Intact() && Others(View(), Tick) == Others(old(View()), Tick)
        invariant Objects() <= old(Objects())
        decreases |nodes|
      {
        if head.event.call == Tick {
          OthersDrop(View(), 0, Tick);
          assert View()[..0] + View()[1..] == View()[1..];
          PopHead();
        } else {
          break;
        }
      }
      if head == null {
        return;
      }
      ClearRest();
      enabled := true;
    }

    /** The second loop of clear_timer_event: the ticks behind the head. */
    method ClearRest()
      requires Linked() && nodes != [] && nodes[0].event.call != Tick
      modifies this`nodes, Objects()
      ensures Linked() && nodes != [] && nodes[0] == old(nodes[0])
      ensures View() == Others(old(View()), Tick)
    {
      var iter := head;
      ghost var i := 0;
      assert Placed(0);
      while iter.next != null
        invariant Linked() && i < |nodes| && iter == nodes[i] && Placed(i) && nodes[0] == old(nodes[0])
        invariant Others(View(), Tick) == Others(old(View()), Tick)
        invariant forall j :: 0 <= j <= i ==> nodes[j].event.call != Tick
        invariant Objects() <= old(Objects())
        decreases |nodes| - i
      {
        assert Placed(i + 1);
        if iter.next.event.call == Tick {
          OthersDrop(View(), i + 1, Tick);
          assert iter in nodes;
          DropNext(iter, i);
        } else {
          iter := iter.next;
          i := i + 1;
        }
        assert Placed(i);
      }
      OthersAll(View(), Tick);
    }

    /** iter->next = iter->next->next */
    method DropNext(iter: TimerEvent, ghost i: nat)
      requires Linked() && i + 1 < |nodes| && iter == nodes[i] && iter.next == nodes[i + 1]
      modifies this`nodes, iter
      ensures Linked() && nodes == old(nodes)[..i + 1] + old(nodes)[i + 2..]
      ensures View() == old(View())[..i + 1] + old(View())[i + 2..]
      ensures Objects() <= old(Objects())
    {
      LinkedAt();
      ghost var before := nodes;
      iter.next := iter.next.next;
      nodes := before[..i + 1] + before[i + 2..];
      forall k: nat | k < |nodes|
        ensures Placed(k)
      {
        assert nodes[k] == before[if k <= i then k else k + 1];
      }
    }

    lemma LinkedAt()
      requires Linked()
      ensures forall i {:trigger nodes[i].next} :: 0 <= i < |nodes| ==>
                nodes[i].next == if i + 1 < |nodes| then nodes[i + 1] else null
    {
      forall i | 0 <= i < |nodes|
        ensures nodes[i].next == if i + 1 < |nodes| then nodes[i + 1] else null
      {
        assert Placed(i);
      }
    }
  }

  lemma {:induction false} PlaceIs(es: seq<Event>, clock: nat, i: nat)
    requires i <= |es| && (i < |es| ==> es[i].clock > clock) && forall j :: 0 <= j < i ==> es[j].clock <= clock
    ensures Place(es, clock) == i
  {
    if i > 0 {
      PlaceIs(es[1..], clock, i - 1);
    }
  }
}
