/** The slabs of lib/allocator/dynamic_allocator.c as values: size classes, the bitmap of one
    slab, and the pool of every class.  The bitmap is modelled as the code updates it: a
    32-bit `1` is shifted and then widened with its sign, so bit 31 drags bits 32 .. 63 of its
    64-bit row along and each row has 32 usable slots. */
module SlabState {
  import opened Machine

  const OBJ_STEP: nat := 16
  const POOLS: nat := 64
  const ELEMENT_OFFSET: nat := 288
  const ROWS: nat := 4

  // ----- size classes -----

  /** get_pool_idx */
  function PoolIdx(size: nat): nat {
    if size < OBJ_STEP then 0 else (size - OBJ_STEP + OBJ_STEP - 1) / OBJ_STEP
  }

  function ObjSize(pool: nat): nat {
    pool * OBJ_STEP + OBJ_STEP
  }

  /** The class of a size is the least one that fits, and the class of a class's own size is
      itself, which is how dyna_free finds the pool again.  There are classes up to 1024 bytes, and
      no object is 16 bytes larger than was asked for. */
  lemma SizeClasses(size: nat, pool: nat)
    ensures PoolIdx(size) <= pool <==> size <= ObjSize(pool)
    ensures PoolIdx(ObjSize(pool)) == pool
    ensures PoolIdx(size) < POOLS <==> size <= 1024
    ensures ObjSize(pool) % 16 == 0 && (size > 0 ==> size <= ObjSize(PoolIdx(size)) < size + 16)
  {
  }

  function Capacity(objSize: nat): nat
    requires objSize > 0
  {
    (PAGE_SIZE - ELEMENT_OFFSET) / objSize
  }

  // ----- the bitmap of a slab -----

  type Row = seq<bool>

  /** Bits 32 .. 63 of a row follow bit 31. */
  predicate RowOk(row: Row) {
    |row| == 64 && forall b :: 32 <= b < 64 ==> row[b] == row[31]
  }

  /** The bits of `1 << bit`, widened to 64 bits. */
  predicate InMask(bit: nat, b: nat) {
    if bit % 32 == 31 then 31 <= b < 64 else b == bit % 32
  }

  /** `row |= 1 << bit`, or `row &= ~(1 << bit)` */
  function Write(row: Row, bit: nat, v: bool): (r: Row)
    requires |row| == 64
    ensures |r| == 64
    ensures RowOk(row) && bit < 32 ==> RowOk(r) && forall b :: 0 <= b < 32 ==> r[b] == if b == bit then v else row[b]
  {
    seq(64, b requires 0 <= b < 64 => if InMask(bit, b) then v else row[b])
  }

  predicate RowsOk(rows: seq<Row>) {
    |rows| == ROWS && forall i :: 0 <= i < ROWS ==> RowOk(rows[i])
  }

  /** Whether slot j of the slab can be used at all. */
  predicate Usable(j: nat) {
    j % 64 < 32
  }

  /** Slot j is handed out. */
  predicate Bit(rows: seq<Row>, j: nat)
    requires RowsOk(rows)
  {
    j < 64 * ROWS && Usable(j) && rows[j / 64][j % 64]
  }

  function WriteSlot(rows: seq<Row>, j: nat, v: bool): (r: seq<Row>)
    requires RowsOk(rows) && j < 64 * ROWS
    ensures |r| == ROWS
    ensures Usable(j) ==> RowsOk(r) && forall i :: Bit(r, i) <==> if i == j then v else Bit(rows, i)
  {
    rows[j / 64 := Write(rows[j / 64], j % 64, v)]
  }

  /** The first clear bit of a row, from bit b on. */
  function FirstZero(row: Row, b: nat): (z: nat)
    requires |row| == 64 && b <= 64
    ensures b <= z <= 64 && (z < 64 ==> !row[z]) && forall c :: b <= c < z ==> row[c]
    decreases 64 - b
  {
    if b == 64 || !row[b] then b else FirstZero(row, b + 1)
  }

  /** fill_bitmap from row i on, for a slab with `total` rows in use. */
  function Fill(rows: seq<Row>, i: nat, total: nat): (r: (seq<Row>, Option<nat>))
    requires RowsOk(rows) && i <= total <= ROWS
    decreases total - i
  {
    if i == total then (rows, None)
    else
      var z := FirstZero(rows[i], 0);
      if z == 64 then Fill(rows, i + 1, total)
      else (WriteSlot(rows, 64 * i + z, true), Some(64 * i + z))
  }

  /** The search finds the first usable slot that is not handed out, and hands it out; or there
      is none. */
  lemma {:induction false} FillFinds(rows: seq<Row>, i: nat, total: nat)
    requires RowsOk(rows) && i <= total <= ROWS
    ensures var (rows', got) := Fill(rows, i, total);
            && (got.None? ==> rows' == rows && forall j: nat :: 64 * i <= j < 64 * total && Usable(j) ==> Bit(rows, j))
            && (got.Some? ==>
                  && 64 * i <= got.value < 64 * total && Usable(got.value) && !Bit(rows, got.value)
                  && rows' == WriteSlot(rows, got.value, true)
                  && forall j: nat :: 64 * i <= j < got.value && Usable(j) ==> Bit(rows, j))
    decreases total - i
  {
    if i < total {
      var z := FirstZero(rows[i], 0);
      RowPrefix(rows, i, z);
      if z == 64 {
        FillFinds(rows, i + 1, total);
      } else {
        assert z < 32 && (64 * i + z) / 64 == i && (64 * i + z) % 64 == z;
      }
    }
  }

  lemma RowPrefix(rows: seq<Row>, i: nat, z: nat)
    requires RowsOk(rows) && i < ROWS && z <= 64
    requires forall c :: 0 <= c < z ==> rows[i][c]
    ensures forall j: nat :: 64 * i <= j < 64 * i + z && Usable(j) ==> Bit(rows, j)
  {
    forall j: nat | 64 * i <= j < 64 * i + z && Usable(j)
      ensures Bit(rows, j)
    {
      assert j / 64 == i && j % 64 == j - 64 * i;
    }
  }

  /** How many of the first n slots are handed out. */
  function Used(rows: seq<Row>, n: nat): (u: nat)
    requires RowsOk(rows)
    ensures u <= n
  {
    if n == 0 then 0 else Used(rows, n - 1) + if Bit(rows, n - 1) then 1 else 0
  }

  /** How many of the first n slots can be used at all. */
  function Slots(n: nat): (u: nat)
    ensures u <= n && (n <= 32 ==> u == n) && (n > 32 ==> u < n)
  {
    if n == 0 then 0 else Slots(n - 1) + if Usable(n - 1) then 1 else 0
  }

  lemma {:induction false} UsedAfter(rows: seq<Row>, rows': seq<Row>, j: nat, n: nat)
    requires RowsOk(rows) && RowsOk(rows') && !Bit(rows, j)
    requires forall i :: Bit(rows', i) <==> i == j || Bit(rows, i)
    ensures Used(rows', n) == Used(rows, n) + if j < n then 1 else 0
  {
    if n > 0 {
      UsedAfter(rows, rows', j, n - 1);
    }
  }

  /** All usable slots are handed out exactly when there are as many as usable slots. */
  lemma {:induction false} UsedAll(rows: seq<Row>, n: nat)
    requires RowsOk(rows) && n <= 64 * ROWS
    ensures Used(rows, n) <= Slots(n)
    ensures Used(rows, n) == Slots(n) <==> forall j :: 0 <= j < n && Usable(j) ==> Bit(rows, j)
  {
    if n > 0 {
      UsedAll(rows, n - 1);
    }
  }

  lemma {:induction false} UsedNone(rows: seq<Row>, n: nat)
    requires RowsOk(rows)
    ensures Used(rows, n) == 0 <==> forall j :: 0 <= j < n ==> !Bit(rows, j)
  {
    if n > 0 {
      UsedNone(rows, n - 1);
    }
  }

  // ----- the header of a slab -----

  datatype Header = Header(objSize: nat, capacity: nat, avail: nat, rows: seq<Row>)

  /** init_page_header */
  function Fresh(objSize: nat): Header
    requires objSize > 0
  {
    Header(objSize, Capacity(objSize), Capacity(objSize), seq(ROWS, _ => seq(64, _ => false)))
  }

  /** Slots handed out and slots available make up the capacity. */
  ghost predicate HeaderOk(h: Header, pool: nat) {
    && pool < POOLS && h.objSize == ObjSize(pool) && h.capacity == Capacity(h.objSize)
    && RowsOk(h.rows) && h.avail + Used(h.rows, h.capacity) == h.capacity
  }

  /** Slot j of the slab is a live object. */
  predicate LiveSlot(h: Header, j: nat)
    requires RowsOk(h.rows)
  {
    j < h.capacity && Bit(h.rows, j)
  }

  lemma CapacityBounds(pool: nat)
    requires pool < POOLS
    ensures 3 <= Capacity(ObjSize(pool)) <= 238
    ensures Capacity(ObjSize(pool)) * ObjSize(pool) + ELEMENT_OFFSET <= PAGE_SIZE
    ensures (Capacity(ObjSize(pool)) + 1) * ObjSize(pool) + ELEMENT_OFFSET > PAGE_SIZE
    ensures Capacity(ObjSize(pool)) <= 32 <==> ObjSize(pool) >= 128
  {
    var s := ObjSize(pool);
    var c := Capacity(s);
    assert c * s <= 3808 < (c + 1) * s by {
      assert 3808 == s * c + 3808 % s;
      assert (c + 1) * s == c * s + s;
    }
    CapacityAtLeast(c, s);
  }

  lemma CapacityAtLeast(c: nat, s: nat)
    requires 16 <= s <= 1024 && s % 16 == 0 && c * s <= 3808 < (c + 1) * s
    ensures 3 <= c <= 238 && (c <= 32 <==> s >= 128)
  {
    if c < 3 { MulLe(c + 1, 3, s, 1024); }
    if c > 238 { MulLe(239, c, 16, s); }
    if s >= 128 && c > 32 { MulLe(33, c, 128, s); }
    if s < 128 && c <= 32 { MulLe(c + 1, 33, s, 112); }
  }

  lemma MulLe(a: nat, b: nat, x: nat, y: nat)
    requires a <= b && x <= y
    ensures a * x <= b * y
  {
    assert b * y - a * x == b * (y - x) + (b - a) * x;
  }

  lemma FreshOk(pool: nat)
    requires pool < POOLS
    ensures HeaderOk(Fresh(ObjSize(pool)), pool)
    ensures forall j: nat :: !LiveSlot(Fresh(ObjSize(pool)), j)
  {
    var h := Fresh(ObjSize(pool));
    UsedNone(h.rows, h.capacity);
  }

  /** alloc_obj: the header afterwards and the slot, or none. */
  function AllocSlot(h: Header): (r: (Header, Option<nat>))
    requires RowsOk(h.rows) && h.capacity <= 64 * ROWS && h.avail > 0
  {
    var (rows, got) := Fill(h.rows, 0, (h.capacity + 63) / 64);
    if got.None? || got.value >= h.capacity then (h.(rows := rows), None)
    else (h.(rows := rows, avail := h.avail - 1), got)
  }

  /** From a slab that is not full, alloc_obj hands out the first usable slot that was not live, exactly
      unless every usable slot is live; it then changes nothing that matters. */
  lemma AllocSlotTheorem(h: Header, pool: nat)
    requires HeaderOk(h, pool) && h.avail > 0 && h.capacity <= 64 * ROWS
    ensures var (h', got) := AllocSlot(h);
            && HeaderOk(h', pool)
            && (got.None? <==> Used(h.rows, h.capacity) == Slots(h.capacity))
            && (got.None? ==> h'.avail == h.avail && forall j :: LiveSlot(h', j) <==> LiveSlot(h, j))
            && (got.Some? ==>
                  && got.value < h.capacity && !LiveSlot(h, got.value) && h'.avail == h.avail - 1
                  && Usable(got.value) && (forall j: nat :: j < got.value && Usable(j) ==> LiveSlot(h, j))
                  && forall j :: LiveSlot(h', j) <==> j == got.value || LiveSlot(h, j))
  {
    hide Used, Bit, Fill, WriteSlot, Slots, Usable;
    var (rows, got) := Fill(h.rows, 0, (h.capacity + 63) / 64);
    AllocFails(h);
    if got.Some? {
      UsedAfter(h.rows, rows, got.value, h.capacity);
    }
  }

  lemma AllocCounts(h: Header, pool: nat)
    requires HeaderOk(h, pool) && h.avail > 0 && h.capacity <= 64 * ROWS
    ensures var (h', got) := AllocSlot(h);
            && HeaderOk(h', pool) && h'.capacity == h.capacity
            && Used(h'.rows, h.capacity) == Used(h.rows, h.capacity) + (if got.Some? then 1 else 0)
  {
    hide Used, Slots, LiveSlot;
    AllocSlotTheorem(h, pool);
  }

  lemma AllocFails(h: Header)
    requires RowsOk(h.rows) && h.capacity <= 64 * ROWS
    ensures var (rows, got) := Fill(h.rows, 0, (h.capacity + 63) / 64);
            && RowsOk(rows)
            && (got.None? || got.value >= h.capacity <==> Used(h.rows, h.capacity) == Slots(h.capacity))
            && (got.None? ==> rows == h.rows)
            && (got.Some? ==>
                  && !Bit(h.rows, got.value) && Usable(got.value)
                  && (forall j: nat :: j < got.value && Usable(j) ==> Bit(h.rows, j))
                  && forall i :: Bit(rows, i) <==> i == got.value || Bit(h.rows, i))
  {
    hide Used, Fill, Slots;
    var (rows, got) := Fill(h.rows, 0, (h.capacity + 63) / 64);
    FillFinds(h.rows, 0, (h.capacity + 63) / 64);
    UsedAll(h.rows, h.capacity);
  }

  /** free_obj, once the slot is known. */
  function FreeSlot(h: Header, j: nat): Header
    requires RowsOk(h.rows) && j < 64 * ROWS
  {
    h.(rows := WriteSlot(h.rows, j, false), avail := h.avail + 1)
  }

  lemma FreeSlotTheorem(h: Header, pool: nat, j: nat)
    requires HeaderOk(h, pool) && LiveSlot(h, j)
    ensures HeaderOk(FreeSlot(h, j), pool) && FreeSlot(h, j).avail == h.avail + 1
    ensures forall i :: LiveSlot(FreeSlot(h, j), i) <==> i != j && LiveSlot(h, i)
  {
    UsedAfter(FreeSlot(h, j).rows, h.rows, j, h.capacity);
  }

  // ----- what becomes of a slab -----

  /** A slot is handed out, or a live one is given back. */
  datatype SlotStep = Hand | Take(j: nat)

  /** The steps take a slab's header from h to e. */
  ghost predicate SlotRuns(h: Header, steps: seq<SlotStep>, e: Header)
    requires RowsOk(h.rows) && h.capacity <= 64 * ROWS
    decreases |steps|, 0
  {
    if steps == [] then h == e
    else
      match steps[0]
      case Hand => h.avail > 0 && SlotRest(AllocSlot(h).0, steps[1..], e)
      case Take(j) => LiveSlot(h, j) && j < 64 * ROWS && SlotRest(FreeSlot(h, j), steps[1..], e)
  }

  ghost predicate SlotRest(h: Header, steps: seq<SlotStep>, e: Header)
    decreases |steps|, 1
  {
    RowsOk(h.rows) && h.capacity <= 64 * ROWS && SlotRuns(h, steps, e)
  }

  /** A header that a new slab of the class comes to have. */
  ghost predicate Reachable(h: Header, pool: nat)
    requires pool < POOLS
  {
    CapacityBounds(pool);
    FreshOk(pool);
    exists steps :: SlotRuns(Fresh(ObjSize(pool)), steps, h)
  }

  lemma {:induction false} SlotRunsKeep(h: Header, steps: seq<SlotStep>, e: Header, pool: nat)
    requires HeaderOk(h, pool) && h.capacity <= 64 * ROWS && SlotRuns(h, steps, e)
    ensures HeaderOk(e, pool) && e.capacity == h.capacity
    decreases |steps|
  {
    hide HeaderOk, AllocSlot, FreeSlot, Used, LiveSlot;
    HeaderRows(h, pool);
    if steps != [] {
      match steps[0] {
        case Hand =>
          AllocSlotTheorem(h, pool);
          HeaderRows(AllocSlot(h).0, pool);
          SlotRunsKeep(AllocSlot(h).0, steps[1..], e, pool);
        case Take(j) =>
          FreeSlotTheorem(h, pool, j);
          HeaderRows(FreeSlot(h, j), pool);
          SlotRunsKeep(FreeSlot(h, j), steps[1..], e, pool);
      }
    }
  }

  lemma HeaderRows(h: Header, pool: nat)
    requires HeaderOk(h, pool)
    ensures RowsOk(h.rows) && h.objSize == ObjSize(pool) && h.capacity == Capacity(h.objSize)
    ensures h.avail + Used(h.rows, h.capacity) == h.capacity
  {
  }

  /** Handing out n more slots, while there are so many usable ones. */
  lemma {:induction false} FillUp(h: Header, pool: nat, n: nat) returns (e: Header, steps: seq<SlotStep>)
    requires HeaderOk(h, pool) && h.capacity <= 64 * ROWS && Used(h.rows, h.capacity) + n <= Slots(h.capacity)
    ensures HeaderOk(e, pool) && SlotRuns(h, steps, e) && e.capacity == h.capacity
    ensures Used(e.rows, e.capacity) == Used(h.rows, h.capacity) + n
    decreases n
  {
    hide Used, Slots, AllocSlot, HeaderOk;
    e, steps := h, [];
    if n > 0 {
      HeaderRows(h, pool);
      AllocSlotTheorem(h, pool);
      var m := AllocSlot(h).0;
      HeaderRows(m, pool);
      e, steps := FillUp(m, pool, n - 1);
      assert ([Hand] + steps)[1..] == steps;
      steps := [Hand] + steps;
    }
  }

  /** Every slab of the class that is not full has a slot to hand out. */
  ghost predicate AlwaysServes(pool: nat)
    requires pool < POOLS
  {
    forall h :: Reachable(h, pool) && h.avail > 0 ==>
                  RowsOk(h.rows) && h.capacity <= 64 * ROWS && AllocSlot(h).1.Some?
  }

  /** Slabs that are not full always serve in exactly the classes of 128 bytes or more.  In a
      smaller class, handing out slot after slot leads to a slab whose usable slots are all live
      while others still count as available, and the allocation fails. */
  lemma WhenSlabsServe(pool: nat)
    requires pool < POOLS
    ensures AlwaysServes(pool) <==> ObjSize(pool) >= 128
  {
    CapacityBounds(pool);
    FreshOk(pool);
    if ObjSize(pool) >= 128 {
      forall h | Reachable(h, pool) && h.avail > 0
        ensures RowsOk(h.rows) && h.capacity <= 64 * ROWS && AllocSlot(h).1.Some?
      {
        var steps :| SlotRuns(Fresh(ObjSize(pool)), steps, h);
        SlotRunsKeep(Fresh(ObjSize(pool)), steps, h, pool);
        AllocSlotTheorem(h, pool);
      }
    } else {
      var h := AllUsed(pool);
      AllocSlotTheorem(h, pool);
    }
  }

  /** A slab whose usable slots have all been handed out. */
  lemma AllUsed(pool: nat) returns (h: Header)
    requires pool < POOLS && ObjSize(pool) < 128
    ensures Reachable(h, pool) && HeaderOk(h, pool) && h.avail > 0 && Used(h.rows, h.capacity) == Slots(h.capacity)
  {
    hide SlotRuns;
    CapacityBounds(pool);
    FreshOk(pool);
    var f := Fresh(ObjSize(pool));
    UsedNone(f.rows, f.capacity);
    var steps;
    h, steps := FillUp(f, pool, Slots(f.capacity));
  }

  /** The slot whose bit `~(1 << (j % 64))` clears: the shift goes by j modulo 32. */
  function HitSlot(j: nat): nat {
    64 * (j / 64) + j % 64 % 32
  }

  lemma HitUsable(j: nat)
    ensures HitSlot(j) <= j && Usable(HitSlot(j)) && HitSlot(j) / 64 == j / 64 && HitSlot(j) % 64 % 32 == j % 64 % 32
  {
    assert HitSlot(j) % 64 == j % 64 % 32;
  }

  lemma WriteSame(row: Row, a: nat, b: nat, v: bool)
    requires |row| == 64 && a % 32 == b % 32
    ensures Write(row, a, v) == Write(row, b, v)
  {
    assert forall c: nat :: InMask(a, c) <==> InMask(b, c);
  }

  lemma HitWrite(rows: seq<Row>, j: nat, v: bool)
    requires RowsOk(rows) && j < 64 * ROWS
    ensures HitSlot(j) < 64 * ROWS && WriteSlot(rows, j, v) == WriteSlot(rows, HitSlot(j), v)
  {
    hide Write, Bit;
    HitUsable(j);
    WriteSame(rows[j / 64], j % 64, HitSlot(j) % 64, v);
  }

  lemma {:induction false} UsedSame(rows: seq<Row>, rows': seq<Row>, n: nat)
    requires RowsOk(rows) && RowsOk(rows')
    requires forall i :: 0 <= i < n ==> (Bit(rows', i) <==> Bit(rows, i))
    ensures Used(rows', n) == Used(rows, n)
  {
    if n > 0 {
      UsedSame(rows, rows', n - 1);
    }
  }

  /** free_obj accepts every index up to the capacity, and the capacity itself.  The slab's counts
      still agree afterwards exactly if the slot whose bit it clears was live. */
  lemma FreeSlotExact(h: Header, pool: nat, j: nat)
    requires HeaderOk(h, pool) && j <= h.capacity
    ensures j < 64 * ROWS
    ensures HeaderOk(FreeSlot(h, j), pool) <==> LiveSlot(h, HitSlot(j))
  {
    hide Write, WriteSlot, Used, Bit, Capacity, ObjSize;
    CapacityBounds(pool);
    var t := HitSlot(j);
    HitUsable(j);
    HitWrite(h.rows, j, false);
    if LiveSlot(h, t) {
      FreeSlotTheorem(h, pool, t);
    } else {
      UsedSame(h.rows, WriteSlot(h.rows, t, false), h.capacity);
    }
  }

  /** A slab is empty exactly when it holds no live object. */
  lemma EmptySlab(h: Header, pool: nat)
    requires HeaderOk(h, pool)
    ensures h.avail == h.capacity <==> forall j :: !LiveSlot(h, j)
  {
    hide Used, Bit;
    UsedNone(h.rows, h.capacity);
    forall j: nat
      ensures LiveSlot(h, j) <==> j < h.capacity && Bit(h.rows, j)
    {
    }
  }
}
