/** The whole-cache loops of asm/r4kcache.h: indexed operations over every way and set. */
module IndexLoops {
  import opened Arithmetic
  import opened CacheMachine

  /** CKSEG0, the base address of indexed cache operations. */
  const INDEX_BASE: nat := 0x8000_0000
  const DCACHE_SIZE: nat := 0x4000
  const ICACHE_SIZE: nat := 0x4000
  const UNROLL: nat := 32

  // ---------- powers of two and bitwise or ----------

  function BitOr(a: nat, b: nat): nat {
    if a == 0 then b else if b == 0 then a
    else 2 * BitOr(a / 2, b / 2) + if a % 2 == 1 || b % 2 == 1 then 1 else 0
  }

  function Shl(a: nat, n: nat): nat {
    if n == 0 then a else 2 * Shl(a, n - 1)
  }

  lemma {:induction false} ShlIsTimes(a: nat, n: nat)
    ensures Shl(a, n) == a * Shl(1, n)
  {
    if n > 0 {
      ShlIsTimes(a, n - 1);
    }
  }

  lemma {:induction false} ShlAdd(a: nat, b: nat, n: nat)
    ensures Shl(a + b, n) == Shl(a, n) + Shl(b, n)
  {
    if n > 0 {
      ShlAdd(a, b, n - 1);
    }
  }

  lemma {:induction false} ShlShl(a: nat, m: nat, n: nat)
    ensures Shl(Shl(a, m), n) == Shl(a, m + n)
  {
    if n > 0 {
      ShlShl(a, m, n - 1);
    }
  }

  lemma OrDoubled(x: nat, y: nat, bit: nat)
    requires bit < 2
    ensures BitOr(2 * x + bit, 2 * y) == 2 * BitOr(x, y) + bit
    ensures BitOr(2 * x, 2 * y + bit) == 2 * BitOr(x, y) + bit
  {
    assert (2 * x + bit) / 2 == x && (2 * y + bit) / 2 == y;
  }

  /** Or-ing in a value below bit `n` where the other operand has no such bits is adding it. */
  lemma {:induction false} OrLow(a: nat, b: nat, n: nat)
    requires b < Shl(1, n)
    ensures BitOr(Shl(a, n), b) == Shl(a, n) + b
  {
    if n > 0 {
      OrLow(a, b / 2, n - 1);
      OrDoubled(Shl(a, n - 1), b / 2, b % 2);
    }
  }

  /** Or-ing commutes with shifting, and the low bits of one side fall through. */
  lemma {:induction false} OrShift(a: nat, low: nat, b: nat, n: nat)
    requires low < Shl(1, n)
    ensures BitOr(Shl(a, n) + low, Shl(b, n)) == Shl(BitOr(a, b), n) + low
  {
    if n > 0 {
      OrShift(a, low / 2, b, n - 1);
      OrDoubled(Shl(a, n - 1) + low / 2, Shl(b, n - 1), low % 2);
    }
  }

  lemma IndexBaseIsBit31()
    ensures INDEX_BASE == Shl(1, 31)
  {
    assert Shl(1, 8) == 0x100;
    ShlShl(1, 8, 8);
    assert Shl(0x100, 8) == 0x1_0000;
    ShlShl(1, 16, 8);
    assert Shl(0x1_0000, 8) == 0x100_0000;
    ShlShl(1, 24, 7);
  }

  /** `addr|ws` is `addr+ws` in the index loops: the base has bit 31 only, the offset lies inside
      a way and `ws` names a way. */
  lemma OrIsSum(waybit: nat, k: nat, offset: nat, way: nat)
    requires waybit + k <= 31 && offset < Shl(1, waybit) && way < Shl(1, k)
    ensures BitOr(INDEX_BASE + offset, Shl(way, waybit)) == INDEX_BASE + offset + Shl(way, waybit)
  {
    IndexBaseIsBit31();
    var c := Shl(1, 31 - waybit - k);
    ShlShl(1, 31 - waybit - k, k);
    ShlShl(1, 31 - waybit, waybit);
    OrShift(Shl(c, k), offset, way, waybit);
    OrLow(c, way, k);
    ShlAdd(Shl(c, k), way, waybit);
  }

  // ---------- indexed operations reach every slot once ----------

  /** A power-of-two geometry: `2^k` ways of `2^waybit` bytes, a multiple of 32 lines each, whose
      way and set fields lie below bit 31, and whose ways end inside the address space. */
  ghost predicate Built(g: Geometry, waybit: nat, k: nat) {
    && 0 < g.ways && 0 < g.sets && 10 <= waybit <= 30 && waybit + k <= 31
    && g.ways == Shl(1, k) && LINE * g.sets == Shl(1, waybit)
  }

  /** The end of a way, counted from the base of the indexed operations, fits 32 bits exactly up to ways
      of 2^30 bytes; for ways of 2^31 bytes the loop bound wraps to zero and the loop does nothing. */
  lemma WayEnd(waybit: nat)
    requires waybit <= 31
    ensures INDEX_BASE + Shl(1, waybit) < SPACE <==> waybit <= 30
    ensures waybit == 31 ==> (INDEX_BASE + Shl(1, waybit)) % SPACE == 0
  {
    IndexBaseIsBit31();
    ShlShl(1, waybit, 31 - waybit);
    ShlIsTimes(Shl(1, waybit), 31 - waybit);
    if waybit < 31 {
      assert Shl(1, 31 - waybit) >= 2;
      TimesMonotone(2, Shl(1, 31 - waybit), Shl(1, waybit));
    }
  }

  /** The geometry of the board: four ways of 4 KB in each cache, and the sizes the routines compare with. */
  lemma BoardGeometry()
    ensures Built(Geometry(4, 128), 12, 2)
    ensures DCACHE_SIZE == ICACHE_SIZE == 4 * 128 * LINE
  {
    assert Shl(1, 6) == 64;
    ShlShl(1, 6, 6);
  }

  /** The base of the indexed operations is a whole number of caches. */
  lemma BaseIsCaches(g: Geometry, waybit: nat, k: nat) returns (c: nat)
    requires Built(g, waybit, k)
    ensures INDEX_BASE == (c * g.ways) * (LINE * g.sets)
  {
    c := Shl(1, 31 - waybit - k);
    IndexBaseIsBit31();
    ShlShl(1, 31 - waybit - k, k);
    ShlShl(1, 31 - waybit, waybit);
    ShlIsTimes(c, k);
    ShlIsTimes(c * g.ways, waybit);
  }

  lemma IndexAddress(q: nat, way: nat, w: nat, index: nat)
    ensures q * (LINE * w) + LINE * (way * w + index) == (q + way) * (LINE * w) + LINE * index
    ensures (q + way) * (LINE * w) + LINE * index == LINE * ((q + way) * w + index)
  {
    assert (q + way) * (LINE * w) == q * (LINE * w) + way * (LINE * w);
    assert way * (LINE * w) == LINE * (way * w);
    assert (q + way) * (LINE * w) == LINE * ((q + way) * w);
  }

  /** The slot an index operation at `INDEX_BASE + 32*(way*sets + index)` reaches. */
  lemma IndexReaches(g: Geometry, waybit: nat, k: nat, way: nat, index: nat)
    requires Built(g, waybit, k) && way < g.ways && index < g.sets
    ensures IndexSlot(g, INDEX_BASE + LINE * (way * g.sets + index)) == Slot(way, index)
  {
    var c := BaseIsCaches(g, waybit, k);
    hide Shl;
    var q := c * g.ways + way;
    IndexAddress(c * g.ways, way, g.sets, index);
    DivideUnique(q, LINE * g.sets, LINE * index);
    DivideUnique(c, g.ways, way);
    DivideUnique(q, g.sets, index);
  }

  /** The steps of a whole-cache loop, in ascending address order. */
  function IndexOps(kind: Kind, n: nat): seq<CacheOp> {
    Stride(kind, INDEX_BASE, n)
  }

  lemma IndexOpsGrow(kind: Kind, n: nat)
    ensures IndexOps(kind, n + 1) == IndexOps(kind, n) + [CacheOp(kind, INDEX_BASE + LINE * n)]
  {
  }

  /** The number of the step of a whole-cache loop that reaches slot `s`. */
  function Number(g: Geometry, s: Slot): nat {
    s.way * g.sets + s.index
  }

  function StepSlot(g: Geometry, j: nat): Slot
    requires 0 < g.ways && 0 < g.sets
  {
    IndexSlot(g, INDEX_BASE + LINE * j)
  }

  predicate InCache(g: Geometry, s: Slot) {
    s.way < g.ways && s.index < g.sets
  }

  lemma SlotHasStep(g: Geometry, waybit: nat, k: nat, s: Slot)
    requires Built(g, waybit, k) && InCache(g, s)
    ensures Number(g, s) < g.ways * g.sets && StepSlot(g, Number(g, s)) == s
  {
    IndexReaches(g, waybit, k, s.way, s.index);
    TimesMonotone(s.way + 1, g.ways, g.sets);
  }

  lemma StepHasSlot(g: Geometry, waybit: nat, k: nat, j: nat)
    requires Built(g, waybit, k) && j < g.ways * g.sets
    ensures InCache(g, StepSlot(g, j)) && Number(g, StepSlot(g, j)) == j
  {
    hide Shl, IndexSlot;
    var way, index := j / g.sets, j % g.sets;
    assert j == way * g.sets + index;
    if way >= g.ways {
      TimesMonotone(g.ways, way, g.sets);
    }
    IndexReaches(g, waybit, k, way, index);
  }

  /** The whole-cache loop touches each (way, set) pair exactly once. */
  lemma EachSlotOnce(g: Geometry, waybit: nat, k: nat)
    requires Built(g, waybit, k)
    ensures forall j: nat :: j < g.ways * g.sets ==> InCache(g, StepSlot(g, j))
    ensures forall s: Slot :: InCache(g, s) ==> Number(g, s) < g.ways * g.sets
    ensures forall s: Slot, j: nat :: InCache(g, s) && j < g.ways * g.sets ==>
      (StepSlot(g, j) == s <==> j == Number(g, s))
  {
    forall s: Slot | InCache(g, s) ensures Number(g, s) < g.ways * g.sets && StepSlot(g, Number(g, s)) == s {
      SlotHasStep(g, waybit, k, s);
    }
    forall j: nat | j < g.ways * g.sets ensures InCache(g, StepSlot(g, j)) && Number(g, StepSlot(g, j)) == j {
      StepHasSlot(g, waybit, k, j);
    }
  }

  lemma LinesInCache(g: Geometry, m: Machine)
    requires Ok(g, m)
    ensures forall s :: s in m.d || s in m.i ==> InCache(g, s)
  {
  }

  lemma {:induction false} WritebackIndexed(g: Geometry, waybit: nat, k: nat, m: Machine, n: nat)
    requires Built(g, waybit, k) && Ok(g, m) && n <= g.ways * g.sets
    ensures var m' := Exec(g, m, IndexOps(IndexWritebackInvD, n));
      && m'.i == m.i && m'.d.Keys <= m.d.Keys
      && AllKept(m, m')
      && (forall s :: s in m'.d ==> n <= Number(g, s))
  {
    hide Ok, Apply, AllKept, HeldD, Shl, Number, InCache, Built, IndexSlot;
    OkMemory(g, m);
    KeptSame(m);
    if n > 0 {
      WritebackIndexed(g, waybit, k, m, n - 1);
      IndexOpsGrow(IndexWritebackInvD, n - 1);
      var before := Exec(g, m, IndexOps(IndexWritebackInvD, n - 1));
      LinesInCache(g, before);
      EachSlotOnce(g, waybit, k);
      var op := CacheOp(IndexWritebackInvD, INDEX_BASE + LINE * (n - 1));
      WritebackStep(g, before, op);
      KeptTwice(m, before, Apply(g, before, op));
      forall s | s in Apply(g, before, op).d ensures n <= Number(g, s) {
        assert s in before.d.Keys && StepSlot(g, n - 1) != s;
      }
    }
  }

  lemma EmptyCache(m: Machine, m': Machine)
    requires AllKept(m, m') && m'.d == map[]
    ensures forall u :: 0 <= u < LINES ==> View(m', u) == Settled(m, u) == m'.mem[u]
  {
    forall u | 0 <= u < LINES ensures View(m', u) == Settled(m, u) == m'.mem[u] {
      Unheld(m', u);
      assert Kept(m, m', u);
    }
  }

  /** The whole-cache D loop empties the D-cache, and memory holds what every line settles to. */
  lemma WritebackAll(g: Geometry, waybit: nat, k: nat, m: Machine)
    requires Built(g, waybit, k) && Ok(g, m)
    ensures var m' := Exec(g, m, IndexOps(IndexWritebackInvD, g.ways * g.sets));
      && m'.i == m.i && m'.d == map[]
      && AllKept(m, m') && (forall u :: 0 <= u < LINES ==> View(m', u) == Settled(m, u) == m'.mem[u])
  {
    hide Number, Shl, AllKept, View, Settled, Apply;
    WritebackIndexed(g, waybit, k, m, g.ways * g.sets);
    var m' := Exec(g, m, IndexOps(IndexWritebackInvD, g.ways * g.sets));
    EachSlotOnce(g, waybit, k);
    LinesInCache(g, m');
    assert m'.d.Keys == {};
    EmptyCache(m, m');
  }

  lemma {:induction false} InstructionIndexed(g: Geometry, waybit: nat, k: nat, m: Machine, n: nat)
    requires Built(g, waybit, k) && Ok(g, m) && n <= g.ways * g.sets
    ensures var m' := Exec(g, m, IndexOps(IndexInvalidateI, n));
      && m'.d == m.d && m'.mem == m.mem && m'.i.Keys <= m.i.Keys
      && (forall s :: s in m'.i ==> n <= Number(g, s))
  {
    hide Ok, Apply, HeldI, Shl, Number, InCache, Built, IndexSlot;
    if n > 0 {
      InstructionIndexed(g, waybit, k, m, n - 1);
      IndexOpsGrow(IndexInvalidateI, n - 1);
      var before := Exec(g, m, IndexOps(IndexInvalidateI, n - 1));
      LinesInCache(g, before);
      EachSlotOnce(g, waybit, k);
      var op := CacheOp(IndexInvalidateI, INDEX_BASE + LINE * (n - 1));
      InstructionStep(g, before, op);
      forall s | s in Apply(g, before, op).i ensures n <= Number(g, s) {
        assert s in before.i.Keys && StepSlot(g, n - 1) != s;
      }
    }
  }

  /** The whole-cache I loop empties the I-cache. */
  lemma InstructionAll(g: Geometry, waybit: nat, k: nat, m: Machine)
    requires Built(g, waybit, k) && Ok(g, m)
    ensures var m' := Exec(g, m, IndexOps(IndexInvalidateI, g.ways * g.sets));
      m'.d == m.d && m'.mem == m.mem && m'.i == map[]
  {
    hide Number, Shl;
    InstructionIndexed(g, waybit, k, m, g.ways * g.sets);
    var m' := Exec(g, m, IndexOps(IndexInvalidateI, g.ways * g.sets));
    EachSlotOnce(g, waybit, k);
    LinesInCache(g, m');
  }
}
