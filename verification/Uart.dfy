/** The transmit ring of lib/mini_uart.c.  async_send_data runs statement by statement, and the
    transmit interrupt may come between any two of its statements. */
module Uart {
  import opened Machine

  const SIZE: nat := 2048

  /** The statement async_send_data is about to run; Rest is outside the call. */
  datatype Pc = Rest | Wait | Index | Store | Count | Enable

  /** The ring, the transmit interrupt's enable bit and the producer's locals; `sent` is what went
      out to the data register and `submitted` what async_send_data was called with. */
  datatype Tx = Tx(buffer: seq<Byte>, head: nat, len: nat, irq: bool,
                   pc: Pc, c: Byte, idx: nat,
                   sent: seq<Byte>, submitted: seq<Byte>)

  /** The i-th slot of the ring from head on. */
  function Slot(head: nat, i: nat): (s: nat)
    ensures s < SIZE
  {
    (head + i) % SIZE
  }

  /** What is in the ring, oldest byte first. */
  function Ring(buffer: seq<Byte>, head: nat, len: nat): (r: seq<Byte>)
    requires |buffer| == SIZE
    ensures |r| == len
  {
    seq(len, i requires 0 <= i < len => buffer[Slot(head, i)])
  }

  /** The byte of the call in progress, until it is counted in. */
  function Pending(t: Tx): seq<Byte> {
    if t.pc == Rest || t.pc == Enable then [] else [t.c]
  }

  predicate Inv(t: Tx) {
    && |t.buffer| == SIZE && t.head < SIZE && t.len <= SIZE
    && t.sent + Ring(t.buffer, t.head, t.len) + Pending(t) == t.submitted
    && (t.pc == Index || t.pc == Store || t.pc == Count ==> t.len < SIZE)
    && (t.pc == Store || t.pc == Count ==> t.idx == (t.head + t.len) % SIZE)
    && (t.pc == Count ==> t.buffer[t.idx] == t.c)
    && (t.pc != Enable && t.len > 0 ==> t.irq)
  }

  const START: Tx := Tx(seq(SIZE, _ => 0), 0, 0, true, Rest, 0, 0, [], [])

  // ----- steps -----

  datatype Step =
    | Call(c: Byte)          // async_send_data is entered
    | Statement              // its next statement runs
    | Interrupt(ready: nat)  // the handler runs; the transmitter is found ready so many times

  predicate Enabled(t: Tx, s: Step) {
    (s.Call? <==> t.pc == Rest) || s.Interrupt?
  }

  /** The transmit branch of uart_except_handler. */
  function Drain(t: Tx, ready: nat): (r: Tx)
    requires |t.buffer| == SIZE && t.head < SIZE
    ensures |r.buffer| == SIZE && r.head < SIZE
    decreases ready
  {
    if ready == 0 then t
    else if t.len == 0 then t.(irq := false)
    else Drain(t.(sent := t.sent + [t.buffer[t.head]], head := (t.head + 1) % SIZE, len := t.len - 1), ready - 1)
  }

  function Next(t: Tx, s: Step): Tx
    requires |t.buffer| == SIZE && t.head < SIZE && t.idx < SIZE && Enabled(t, s)
  {
    match s
    case Call(c) => t.(pc := Wait, c := c, submitted := t.submitted + [c])
    case Interrupt(ready) => Drain(t, ready)
    case Statement =>
      match t.pc
      case Rest => t
      case Wait => if t.len >= SIZE then t else t.(pc := Index)
      case Index => t.(pc := Store, idx := (t.head + t.len) % SIZE)
      case Store => t.(pc := Count, buffer := t.buffer[t.idx := t.c])
      case Count => t.(pc := Enable, len := t.len + 1)
      case Enable => t.(pc := Rest, irq := true)
  }

  // ----- every step keeps the invariant -----

  lemma RingPop(buffer: seq<Byte>, head: nat, len: nat)
    requires |buffer| == SIZE && head < SIZE && 0 < len
    ensures Ring(buffer, head, len) == [buffer[head]] + Ring(buffer, (head + 1) % SIZE, len - 1)
  {
    forall i: nat | 0 < i < len
      ensures Slot(head, i) == Slot((head + 1) % SIZE, i - 1)
    {
      Shift(head, i);
    }
  }

  lemma Shift(head: nat, i: nat)
    requires head < SIZE && 0 < i
    ensures (head + i) % SIZE == ((head + 1) % SIZE + (i - 1)) % SIZE
  {
    if head + 1 == SIZE {
      assert (SIZE + (i - 1)) % SIZE == (i - 1) % SIZE;
    }
  }

  /** Popping one byte moves it from the ring to the line, and leaves the tail where it was. */
  lemma PopKeeps(t: Tx)
    requires Inv(t) && t.len > 0
    ensures Inv(t.(sent := t.sent + [t.buffer[t.head]], head := (t.head + 1) % SIZE, len := t.len - 1))
  {
    var u := t.(sent := t.sent + [t.buffer[t.head]], head := (t.head + 1) % SIZE, len := t.len - 1);
    RingPop(t.buffer, t.head, t.len);
    Shift(t.head, t.len);
    var rest := Ring(u.buffer, u.head, u.len);
    assert t.sent + ([t.buffer[t.head]] + rest) + Pending(t) == u.sent + rest + Pending(u);
  }

  lemma {:induction false} DrainKeeps(t: Tx, ready: nat)
    requires Inv(t)
    ensures Inv(Drain(t, ready)) && Drain(t, ready).pc == t.pc
    ensures Drain(t, ready).submitted == t.submitted
    decreases ready
  {
    if ready > 0 && t.len > 0 {
      PopKeeps(t);
      DrainKeeps(t.(sent := t.sent + [t.buffer[t.head]], head := (t.head + 1) % SIZE, len := t.len - 1), ready - 1);
    }
  }

  /** Writing the tail slot changes nothing in the ring; counting it in appends the byte. */
  lemma TailSlot(buffer: seq<Byte>, head: nat, len: nat, c: Byte)
    requires |buffer| == SIZE && head < SIZE && len < SIZE
    ensures var idx := (head + len) % SIZE;
            Ring(buffer[idx := c], head, len) == Ring(buffer, head, len)
    ensures buffer[(head + len) % SIZE] == c ==> Ring(buffer, head, len + 1) == Ring(buffer, head, len) + [c]
  {
    var idx := (head + len) % SIZE;
    forall i: nat | i < len
      ensures Slot(head, i) != idx
    {
      DistinctSlots(head, i, len);
    }
  }

  lemma DistinctSlots(head: nat, i: nat, j: nat)
    requires head < SIZE && i < j < SIZE
    ensures (head + i) % SIZE != (head + j) % SIZE
  {
  }

  lemma StepKeeps(t: Tx, s: Step)
    requires Inv(t) && t.idx < SIZE && Enabled(t, s)
    ensures Inv(Next(t, s)) && Next(t, s).idx < SIZE
  {
    match s {
      case Call(c) =>
        assert t.sent + Ring(t.buffer, t.head, t.len) + [] + [c] == t.sent + Ring(t.buffer, t.head, t.len) + [c];
      case Interrupt(ready) => DrainKeeps(t, ready); DrainIdx(t, ready);
      case Statement =>
        if t.pc == Store || t.pc == Count {
          TailSlot(t.buffer, t.head, t.len, t.c);
          var ring := Ring(t.buffer, t.head, t.len);
          assert t.sent + ring + [t.c] == t.sent + (ring + [t.c]) + [];
        }
    }
  }

  lemma {:induction false} DrainIdx(t: Tx, ready: nat)
    requires |t.buffer| == SIZE && t.head < SIZE
    ensures Drain(t, ready).idx == t.idx
    decreases ready
  {
    if ready > 0 && t.len > 0 {
      DrainIdx(t.(sent := t.sent + [t.buffer[t.head]], head := (t.head + 1) % SIZE, len := t.len - 1), ready - 1);
    }
  }

  // ----- runs -----

  predicate Indexed(t: Tx) {
    |t.buffer| == SIZE && t.head < SIZE && t.idx < SIZE
  }

  ghost predicate Runs(t: Tx, steps: seq<Step>, u: Tx)
    requires Indexed(t)
    decreases |steps|
  {
    if steps == [] then t == u
    else
      && Enabled(t, steps[0])
      && var n := Next(t, steps[0]);
         Indexed(n) && Runs(n, steps[1..], u)
  }

  lemma {:induction false} RunsKeep(t: Tx, steps: seq<Step>, u: Tx)
    requires Inv(t) && Indexed(t) && Runs(t, steps, u)
    ensures Inv(u)
    decreases |steps|
  {
    if steps != [] {
      StepKeeps(t, steps[0]);
      RunsKeep(Next(t, steps[0]), steps[1..], u);
    }
  }

  /** Under every interleaving of calls, statements and interrupts: what went out is a prefix of
      what was submitted, the rest is in the ring (and the call in progress), in order; the index
      computed before an interrupt is still the tail when it is used; and a producer at rest
      never leaves bytes behind with the interrupt off. */
  lemma Transmission(steps: seq<Step>, u: Tx)
    requires Runs(START, steps, u)
    ensures |u.buffer| == SIZE && u.sent + Ring(u.buffer, u.head, u.len) + Pending(u) == u.submitted
    ensures u.sent <= u.submitted && u.len <= SIZE
    ensures u.pc == Store || u.pc == Count ==> u.idx == (u.head + u.len) % SIZE
    ensures u.pc == Rest ==> (u.len > 0 ==> u.irq) && (u.len == 0 ==> u.sent == u.submitted)
  {
    StartOk();
    RunsKeep(START, steps, u);
    assert u.submitted == u.sent + (Ring(u.buffer, u.head, u.len) + Pending(u));
  }

  lemma StartOk()
    ensures Inv(START)
  {
  }

  /** One interrupt with the transmitter ready often enough empties the ring. */
  lemma {:induction false} DrainsAll(t: Tx, ready: nat)
    requires Inv(t) && t.pc == Rest && ready >= t.len
    ensures Drain(t, ready).sent == t.submitted && Drain(t, ready).len == 0
    decreases ready
  {
    if ready > 0 && t.len > 0 {
      PopKeeps(t);
      DrainsAll(t.(sent := t.sent + [t.buffer[t.head]], head := (t.head + 1) % SIZE, len := t.len - 1), ready - 1);
    }
  }

  /** What the transmit interrupt does: it sends the oldest bytes, as many as the transmitter is found
      ready for, and turns itself off exactly when it is found ready once more than there are bytes. */
  lemma {:induction false} DrainExact(t: Tx, ready: nat)
    requires Indexed(t)
    ensures var u := Drain(t, ready); var n := Popped(t, ready); var bytes := Ring(t.buffer, t.head, t.len);
            && u.sent == t.sent + bytes[..n] && |u.buffer| == SIZE && Ring(u.buffer, u.head, u.len) == bytes[n..]
            && u.irq == (t.irq && ready <= t.len)
            && u == t.(sent := u.sent, head := u.head, len := u.len, irq := u.irq)
    decreases ready
  {
    hide Ring;
    var bytes := Ring(t.buffer, t.head, t.len);
    if ready > 0 && t.len > 0 {
      RingPop(t.buffer, t.head, t.len);
      var m := t.(sent := t.sent + [t.buffer[t.head]], head := (t.head + 1) % SIZE, len := t.len - 1);
      DrainExact(m, ready - 1);
      var n := Popped(t, ready);
      assert bytes[1..] == Ring(m.buffer, m.head, m.len) && bytes[..n] == [bytes[0]] + bytes[1..][..n - 1];
      assert bytes[1..][n - 1..] == bytes[n..];
      assert t.sent + [bytes[0]] + bytes[1..][..n - 1] == t.sent + bytes[..n];
    } else {
      assert bytes[..0] == [] && bytes[0..] == bytes && t.sent + [] == t.sent;
    }
  }

  /** A producer waits exactly while the ring is full. */
  lemma WaitsExactly(t: Tx)
    requires Inv(t) && t.idx < SIZE && t.pc == Wait
    ensures Next(t, Statement) == t <==> t.len == SIZE
    ensures t.len < SIZE ==> Next(t, Statement) == t.(pc := Index)
  {
  }

  /** n statements of the producer, with no interrupt between them. */
  function Statements(t: Tx, n: nat): (u: Tx)
    requires Indexed(t)
    ensures Indexed(u)
    decreases n
  {
    if n == 0 || t.pc == Rest then t else Statements(Next(t, Statement), n - 1)
  }

  /** A call for which there is room is over after five statements: its byte is the last of the ring,
      nothing else has changed, and the interrupt is on. */
  lemma CallCompletes(t: Tx, c: Byte)
    requires Inv(t) && t.idx < SIZE && t.pc == Rest && t.len < SIZE
    ensures var u := Statements(Next(t, Call(c)), 5);
            && u.pc == Rest && u.irq && u.len == t.len + 1 && u.head == t.head && u.sent == t.sent
            && Ring(u.buffer, u.head, u.len) == Ring(t.buffer, t.head, t.len) + [c]
            && u.submitted == t.submitted + [c]
  {
    hide Ring;
    var idx := (t.head + t.len) % SIZE;
    TailSlot(t.buffer, t.head, t.len, c);
    TailSlot(t.buffer[idx := c], t.head, t.len, c);
    var a := Next(Next(t, Call(c)), Statement);
    var b := Next(a, Statement);
    var d := Next(b, Statement);
    assert Statements(a, 4) == Statements(b, 3) == Statements(d, 2);
    assert d == t.(c := c, submitted := t.submitted + [c], pc := Count, idx := idx, buffer := t.buffer[idx := c]);
  }

  // ----- a finer grain -----

  /** `len++` as a load, an interrupt, and a store. */
  function SplitCount(t: Tx, ready: nat): Tx
    requires |t.buffer| == SIZE && t.head < SIZE
  {
    Drain(t, ready).(pc := Enable, len := t.len + 1)
  }

  /** How many bytes an interrupt sends. */
  function Popped(t: Tx, ready: nat): nat {
    if ready <= t.len then ready else t.len
  }

  lemma {:induction false} DrainCounts(t: Tx, ready: nat)
    requires |t.buffer| == SIZE && t.head < SIZE
    ensures var u := Drain(t, ready);
            && u.len == t.len - Popped(t, ready) && u.buffer == t.buffer && |u.sent| == |t.sent| + Popped(t, ready)
    decreases ready
  {
    if ready > 0 && t.len > 0 {
      DrainCounts(t.(sent := t.sent + [t.buffer[t.head]], head := (t.head + 1) % SIZE, len := t.len - 1), ready - 1);
    }
  }

  /** The source warns that `len` may change under a non-atomic increment.  Exactly so: the bytes
      still add up after a split increment if and only if the interrupt in between sent none. */
  lemma SplitCountExact(t: Tx, ready: nat)
    requires Inv(t) && t.pc == Count
    ensures var u := SplitCount(t, ready);
            |u.buffer| == SIZE &&
            (u.sent + Ring(u.buffer, u.head, u.len) == u.submitted <==> Popped(t, ready) == 0)
  {
    var u := SplitCount(t, ready);
    DrainKeeps(t, ready);
    DrainCounts(t, ready);
    assert |t.submitted| == |t.sent| + t.len + 1;
    if Popped(t, ready) == 0 {
      assert Drain(t, ready).sent == t.sent && Drain(t, ready).head == t.head;
      TailSlot(t.buffer, t.head, t.len, t.c);
      assert t.sent + (Ring(t.buffer, t.head, t.len) + [t.c]) == t.submitted;
    }
  }

  // ----- the code -----

  /** The driver's variables.  Each method is one step of the model. */
  class Driver {
    const buffer: array<Byte>
    var head: nat
    var len: nat
    var irq: bool
    var pc: Pc
    var c: Byte
    var idx: nat
    ghost var sent: seq<Byte>
    ghost var submitted: seq<Byte>

    ghost function View(): Tx
      reads this, buffer
    {
      Tx(buffer[..], head, len, irq, pc, c, idx, sent, submitted)
    }

    ghost predicate Valid()
      reads this, buffer
    {
      Inv(View()) && idx < SIZE
    }

    /** init_uart, as far as the transmit ring goes */
    constructor ()
      ensures Valid() && View() == START.(buffer := buffer[..]) && fresh(buffer)
    {
      buffer := new Byte[SIZE](_ => 0);
      head, len, irq := 0, 0, true;
      pc, c, idx := Rest, 0, 0;
      sent, submitted := [], [];
    }

    /** async_send_data is called. */
    method Enter(byte: Byte)
      requires Valid() && pc == Rest
      modifies this
      ensures Valid() && View() == Next(old(View()), Call(byte))
    {
      StepKeeps(View(), Call(byte));
      c := byte;
      submitted := submitted + [byte];
      pc := Wait;
    }

    /** The next statement of async_send_data. */
    method Run()
      requires Valid() && pc != Rest
      modifies this, buffer
      ensures Valid() && View() == Next(old(View()), Statement)
    {
      StepKeeps(View(), Statement);
      match pc {
        case Wait => if len < SIZE { pc := Index; }
        case Index => idx := (head + len) % SIZE; pc := Store;
        case Store => buffer[idx] := c; pc := Count;
        case Count => len := len + 1; pc := Enable;
        case Enable => if !irq { irq := true; } pc := Rest;
      }
    }

    /** The transmit branch of uart_except_handler; `ready` bounds how often the line status
        register shows the transmitter ready. */
    method TransmitInterrupt(ready: nat)
      requires Valid()
      modifies this
      ensures Valid() && View() == Next(old(View()), Interrupt(ready))
    {
      hide Ring, Pending;
      StepKeeps(View(), Interrupt(ready));
      var left := ready;
      while left > 0
        invariant head < SIZE && buffer.Length == SIZE
        invariant Drain(View(), left) == Drain(old(View()), ready)
      {
        if len <= 0 {
          irq := false;
          break;
        }
        sent := sent + [buffer[head]];
        head := (head + 1) % SIZE;
        len := len - 1;
        left := left - 1;
      }
    }
  }
}
