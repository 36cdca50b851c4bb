/** The receive ring of lib/mini_uart.c: the receive interrupt fills it, async_read_data empties
    it.  A read is one step here; what its statements do apart comes at the end. */
module UartReceive {
  import opened Machine
  import opened Uart

  /** The ring and the receive interrupt's enable bit; `arrived` is what the handler took from the
      data register, and `taken` what async_read_data returned. */
  datatype Rx = Rx(buffer: seq<Byte>, head: nat, len: nat, irq: bool, taken: seq<Byte>, arrived: seq<Byte>)

  predicate Shaped(r: Rx) {
    |r.buffer| == SIZE && r.head < SIZE && r.len <= SIZE
  }

  /** What was returned and what is in the ring are what arrived. */
  predicate Adds(r: Rx)
    requires |r.buffer| == SIZE
  {
    r.taken + Ring(r.buffer, r.head, r.len) == r.arrived
  }

  predicate RxInv(r: Rx) {
    Shaped(r) && Adds(r) && (r.len < SIZE ==> r.irq)
  }

  const EMPTY: Rx := Rx(seq(SIZE, _ => 0), 0, 0, true, [], [])

  // ----- steps -----

  /** One byte goes into the ring. */
  function Put(r: Rx, c: Byte): (u: Rx)
    requires Shaped(r) && r.len < SIZE
    ensures Shaped(u)
  {
    r.(buffer := r.buffer[Slot(r.head, r.len) := c], len := r.len + 1, arrived := r.arrived + [c])
  }

  /** The receive branch of uart_except_handler, with the bytes that the receiver holds: it takes
      them until there are none left or the ring is full. */
  function Accept(r: Rx, fifo: seq<Byte>): (u: Rx)
    requires Shaped(r)
    ensures Shaped(u)
    decreases |fifo|
  {
    if fifo == [] then r
    else if r.len >= SIZE then r.(irq := false)
    else Accept(Put(r, fifo[0]), fifo[1..])
  }

  /** async_read_data, once there is something to read. */
  function Read(r: Rx): (u: Rx)
    requires Shaped(r) && r.len > 0
    ensures Shaped(u)
  {
    r.(len := r.len - 1, taken := r.taken + [r.buffer[r.head]], head := (r.head + 1) % SIZE, irq := true)
  }

  lemma PutKeeps(r: Rx, c: Byte)
    requires RxInv(r) && r.len < SIZE
    ensures RxInv(Put(r, c))
  {
    TailSlot(r.buffer, r.head, r.len, c);
    var u := Put(r, c);
    TailSlot(u.buffer, r.head, r.len, c);
    assert r.taken + (Ring(r.buffer, r.head, r.len) + [c]) == r.arrived + [c];
  }

  /** The handler takes the first bytes, as many as there is room for, and turns the interrupt off
      exactly when some are left. */
  lemma {:induction false} AcceptKeeps(r: Rx, fifo: seq<Byte>)
    requires RxInv(r) && r.irq
    ensures var u := Accept(r, fifo); var n := if |fifo| <= SIZE - r.len then |fifo| else SIZE - r.len;
            RxInv(u) && u.arrived == r.arrived + fifo[..n] && u.taken == r.taken && (u.irq <==> n == |fifo|)
    decreases |fifo|
  {
    if fifo != [] && r.len < SIZE {
      PutKeeps(r, fifo[0]);
      AcceptKeeps(Put(r, fifo[0]), fifo[1..]);
    }
  }

  lemma ReadKeeps(r: Rx)
    requires RxInv(r) && r.len > 0
    ensures RxInv(Read(r)) && Read(r).arrived == r.arrived
    ensures |r.taken| < |r.arrived| && Read(r).taken == r.taken + [r.arrived[|r.taken|]]
  {
    RingPop(r.buffer, r.head, r.len);
    var rest := Ring(r.buffer, (r.head + 1) % SIZE, r.len - 1);
    assert r.taken + ([r.buffer[r.head]] + rest) == r.taken + [r.buffer[r.head]] + rest;
  }

  datatype RxStep = Reading | Receiving(fifo: seq<Byte>)

  ghost predicate RxEnabled(r: Rx, s: RxStep) {
    match s case Reading => r.len > 0 case Receiving(_) => r.irq
  }

  ghost function RxNext(r: Rx, s: RxStep): Rx
    requires Shaped(r) && RxEnabled(r, s)
  {
    match s case Reading => Read(r) case Receiving(fifo) => Accept(r, fifo)
  }

  ghost predicate RxRuns(r: Rx, steps: seq<RxStep>, u: Rx)
    requires Shaped(r)
    decreases |steps|
  {
    if steps == [] then r == u
    else
      && RxEnabled(r, steps[0])
      && var n := RxNext(r, steps[0]);
         Shaped(n) && RxRuns(n, steps[1..], u)
  }

  lemma {:induction false} RxRunsKeep(r: Rx, steps: seq<RxStep>, u: Rx)
    requires RxInv(r) && RxRuns(r, steps, u)
    ensures RxInv(u)
    decreases |steps|
  {
    if steps != [] {
      match steps[0] {
        case Reading => ReadKeeps(r);
        case Receiving(fifo) => AcceptKeeps(r, fifo);
      }
      RxRunsKeep(RxNext(r, steps[0]), steps[1..], u);
    }
  }

  /** Under every interleaving of reads and interrupts, bytes come out in the order in which they
      arrived and none is lost or repeated, and a ring with room never has its interrupt off. */
  lemma Reception(steps: seq<RxStep>, u: Rx)
    requires RxRuns(EMPTY, steps, u)
    ensures Shaped(u) && u.taken + Ring(u.buffer, u.head, u.len) == u.arrived && u.taken <= u.arrived
    ensures u.len < SIZE ==> u.irq
  {
    RxRunsKeep(EMPTY, steps, u);
  }

  // ----- a finer grain -----

  /** async_read_data as its text has it: `len` goes down before the byte is read, and the interrupt
      may come in between. */
  function SplitRead(r: Rx, fifo: seq<Byte>): (u: Rx)
    requires Shaped(r) && r.len > 0
    ensures Shaped(u)
  {
    var m := Accept(r.(len := r.len - 1), fifo);
    m.(taken := m.taken + [m.buffer[m.head]], head := (m.head + 1) % SIZE, irq := true)
  }

  /** What the interrupt writes: the slots from the tail on, and no others. */
  lemma {:induction false} AcceptWrites(r: Rx, fifo: seq<Byte>, s: nat)
    requires Shaped(r) && s < SIZE
    ensures var u := Accept(r, fifo); var n := if |fifo| <= SIZE - r.len then |fifo| else SIZE - r.len;
            && u.head == r.head && u.len == r.len + n && u.taken == r.taken && u.arrived == r.arrived + fifo[..n]
            && ((forall i: nat :: r.len <= i < r.len + n ==> Slot(r.head, i) != s) ==> u.buffer[s] == r.buffer[s])
    decreases |fifo|
  {
    if fifo != [] && r.len < SIZE {
      var p := Put(r, fifo[0]);
      AcceptWrites(p, fifo[1..], s);
    }
  }

  /** Split in this way, a read is right whatever the bytes are exactly if the interrupt in between
      brings none. */
  lemma SplitReadExact(head: nat, len: nat, k: nat)
    requires head < SIZE && 0 < len <= SIZE
    ensures (forall r: Rx, fifo: seq<Byte> :: RxInv(r) && r.head == head && r.len == len && |fifo| == k ==>
               Adds(SplitRead(r, fifo))) <==> k == 0
  {
    if k == 0 {
      forall r: Rx, fifo: seq<Byte> | RxInv(r) && r.head == head && r.len == len && |fifo| == 0
        ensures Adds(SplitRead(r, fifo))
      {
        ReadKeeps(r);
      }
    } else {
      var r, fifo := SplitReadFails(head, len, k);
      assert RxInv(r) && !Adds(SplitRead(r, fifo));
    }
  }

  /** Zeros in the ring, and ones arriving. */
  lemma SplitReadFails(head: nat, len: nat, k: nat) returns (r: Rx, fifo: seq<Byte>)
    requires head < SIZE && 0 < len <= SIZE && k > 0
    ensures RxInv(r) && r.head == head && r.len == len && |fifo| == k && !Adds(SplitRead(r, fifo))
  {
    hide Accept, Ring;
    var zeros := seq(SIZE, _ => 0);
    fifo := seq(k, _ => 1);
    r := Rx(zeros, head, len, true, [], Ring(zeros, head, len));
    var d := r.(len := len - 1);
    var n := if k <= SIZE - d.len then k else SIZE - d.len;
    var stale := Slot(head, d.len + n);
    AcceptWrites(d, fifo, stale);
    var u := SplitRead(r, fifo);
    if len == 1 {
      FirstWrite(d, fifo);
      ZeroRing(zeros, head, len);
      assert u.taken[0] == 1 && u.arrived[0] == 0;
    } else {
      forall i: nat | d.len <= i < d.len + n
        ensures Slot(head, i) != stale
      {
        NotStale(head, i, d.len + n);
      }
      ZeroRing(zeros, head, len);
      LastOfRing(u.buffer, u.head, u.len, head);
      assert u.arrived[len + n - 1] == 1;
      assert (u.taken + Ring(u.buffer, u.head, u.len))[len + n - 1] == 0;
    }
  }

  lemma ZeroRing(zeros: seq<Byte>, head: nat, len: nat)
    requires zeros == seq(SIZE, _ => 0) && head < SIZE && 0 < len <= SIZE
    ensures |Ring(zeros, head, len)| == len && Ring(zeros, head, len)[0] == 0
  {
  }

  /** The first byte goes to the tail, and no later one there. */
  lemma FirstWrite(r: Rx, fifo: seq<Byte>)
    requires Shaped(r) && r.len < SIZE && fifo != []
    ensures Accept(r, fifo).buffer[Slot(r.head, r.len)] == fifo[0]
  {
    var p := Put(r, fifo[0]);
    forall i: nat | p.len <= i < SIZE
      ensures Slot(r.head, i) != Slot(r.head, r.len)
    {
      DistinctSlots(r.head, r.len, i);
    }
    AcceptWrites(p, fifo[1..], Slot(r.head, r.len));
  }

  lemma NotStale(head: nat, i: nat, j: nat)
    requires head < SIZE && 0 < i < j <= SIZE
    ensures Slot(head, i) != Slot(head, j)
  {
  }

  lemma LastOfRing(buffer: seq<Byte>, head: nat, len: nat, before: nat)
    requires |buffer| == SIZE && before < SIZE && head == (before + 1) % SIZE && len > 0
    ensures Ring(buffer, head, len)[len - 1] == buffer[Slot(before, len)]
  {
    Shift(before, len);
  }

  // ----- the code -----

  class Receiver {
    const buffer: array<Byte>
    var head: nat
    var len: nat
    var irq: bool
    ghost var taken: seq<Byte>
    ghost var arrived: seq<Byte>

    ghost function View(): Rx
      reads this, buffer
    {
      Rx(buffer[..], head, len, irq, taken, arrived)
    }

    ghost predicate Valid()
      reads this, buffer
    {
      RxInv(View())
    }

    /** init_uart, as far as the receive ring goes */
    constructor ()
      ensures Valid() && View() == EMPTY
    {
      buffer := new Byte[SIZE](_ => 0);
      head, len, irq := 0, 0, true;
      taken, arrived := [], [];
    }

    /** async_read_data, once there is something to read */
    method ReadData() returns (data: Byte)
      requires Valid() && len > 0
      modifies this
      ensures Valid() && View() == Read(old(View()))
      ensures old(|taken|) < |arrived| && data == arrived[old(|taken|)]
    {
      ReadKeeps(View());
      len := len - 1;
      data := buffer[head];
      head := head + 1;
      taken := taken + [data];
      head := head % SIZE;
      if !irq {
        irq := true;
      }
    }

    /** The receive branch of uart_except_handler. */
    method ReceiveInterrupt(fifo: seq<Byte>)
      requires Valid() && irq
      modifies this, buffer
      ensures Valid() && View() == Accept(old(View()), fifo)
    {
      hide Ring;
      AcceptKeeps(View(), fifo);
      var i := 0;
      while i < |fifo|
        invariant i <= |fifo| && Shaped(View())
        invariant Accept(View(), fifo[i..]) == Accept(old(View()), fifo)
      {
        if len >= SIZE {
          irq := false;
          return;
        }
        var idx := (head + len) % SIZE;
        assert fifo[i..][0] == fifo[i] && fifo[i..][1..] == fifo[i + 1..];
        ghost var was := View();
        buffer[idx] := fifo[i];
        arrived := arrived + [fifo[i]];
        len := len + 1;
        assert View() == Put(was, fifo[i]);
        i := i + 1;
      }
    }
  }
}
