/** The cache loops of asm/r4kcache.h and the routines of cache.c as code. */
module CacheRoutines {
  import opened Arithmetic
  import opened CacheMachine
  import opened IndexLoops
  import opened Cache
  import opened CacheFetches

  /** 32-bit wrap-around. */
  function Wrap(x: int): (w: nat)
    ensures w < SPACE && (0 <= x < SPACE ==> w == x)
  {
    x % SPACE
  }

  /** `addr & ~(lsize - 1)` */
  function LineStart(addr: nat): nat {
    LINE * (addr / LINE)
  }

  lemma ExecNone(g: Geometry, m: Machine)
    requires Ok(g, m) && 0 < g.ways
    ensures Exec(g, m, []) == m
  {
  }

  /** A way is a whole number of unrolled groups. */
  lemma WholeGroups(g: Geometry, waybit: nat, k: nat)
    requires Built(g, waybit, k)
    ensures g.sets % UNROLL == 0
  {
    hide Shl;
    ShlShl(1, 10, waybit - 10);
    GroupSize();
    ShlIsTimes(Shl(1, 10), waybit - 10);
    Groups(g.sets, Shl(1, waybit - 10));
  }

  lemma GroupSize()
    ensures Shl(1, 10) == LINE * UNROLL
  {
    assert Shl(1, 5) == 32;
    ShlShl(1, 5, 5);
    assert Shl(32, 5) == 1024;
  }

  lemma Groups(sets: nat, x: nat)
    requires LINE * sets == LINE * UNROLL * x
    ensures sets == UNROLL * x && sets % UNROLL == 0
  {
  }

  /** `way << waybit` is `way * sets` lines. */
  lemma WayOffset(g: Geometry, waybit: nat, k: nat, way: nat)
    requires Built(g, waybit, k)
    ensures Shl(way, waybit) == LINE * (way * g.sets)
  {
    ShlIsTimes(way, waybit);
    assert way * (LINE * g.sets) == LINE * (way * g.sets);
  }

  lemma WayStarts(g: Geometry, waybit: nat, k: nat, way: nat)
    requires Built(g, waybit, k)
    ensures Shl(way, waybit) == LINE * (way * g.sets)
    ensures Shl(way + 1, waybit) == Shl(way, waybit) + Shl(1, waybit)
    ensures (way + 1) * g.sets == way * g.sets + g.sets
    ensures way < g.ways <==> Shl(way, waybit) < Shl(g.ways, waybit)
  {
    hide Shl;
    WayOffset(g, waybit, k, way);
    WayOffset(g, waybit, k, g.ways);
    ShlAdd(way, 1, waybit);
    Products(way, g.ways, g.sets);
  }

  lemma Products(way: nat, ways: nat, sets: nat)
    requires 0 < sets
    ensures (way + 1) * sets == way * sets + sets
    ensures way < ways <==> way * sets < ways * sets
  {
    if way < ways {
      TimesMonotone(way + 1, ways, sets);
    } else {
      TimesMonotone(ways, way, sets);
    }
  }

  lemma TwoSteps(g: Geometry, m: Machine, t0: nat, t1: nat)
    requires Ok(g, m) && 0 < g.ways
    ensures Exec(g, m, BoundaryOps(t0, t1))
         == Apply(g, Apply(g, m, CacheOp(HitWritebackInvD, LINE * t0)), CacheOp(HitWritebackInvD, LINE * t1))
  {
    var op0, op1 := CacheOp(HitWritebackInvD, LINE * t0), CacheOp(HitWritebackInvD, LINE * t1);
    ExecNone(g, m);
    ExecGrow(g, m, [], op0);
    ExecGrow(g, m, [op0], op1);
    assert [] + [op0] == [op0] && [op0] + [op1] == BoundaryOps(t0, t1);
  }

  lemma FlushedSeen(g: Geometry, m: Machine, first: nat, last: nat, mid: Machine, m': Machine)
    requires first <= last < SPACE && WrittenBack(g, m, first, last, mid) && Ok(g, m')
    requires m'.d == mid.d && m'.mem == mid.mem
    requires forall t :: 0 <= t < LINES && Meets(first, last, t) ==> !HeldI(m', t)
    ensures AllKept(m, m')
    ensures forall t :: 0 <= t < LINES && Meets(first, last, t) ==> m'.mem[t] == Settled(m, t) == Fetch(m', t)
  {
    hide View, Settled;
    forall t: nat | t < LINES ensures Kept(m, m', t) {
      assert Kept(m, mid, t);
      ViewSame(g, m', mid, t);
    }
  }

  lemma GroupAddress(g: Geometry, waybit: nat, k: nat, n: nat, way: nat, done: nat)
    requires Built(g, waybit, k) && way < g.ways && n < g.sets && done == way * g.sets
    ensures BitOr(INDEX_BASE + LINE * n, Shl(way, waybit)) == INDEX_BASE + LINE * (done + n)
    ensures Shl(way, waybit) == LINE * done
  {
    hide BitOr, Shl;
    WayOffset(g, waybit, k, way);
    OrIsSum(waybit, k, LINE * n, way);
  }

  lemma GroupDone(g: Geometry, m: Machine, kind: Kind, a: nat)
    requires Ok(g, m) && 0 < g.ways
    ensures Exec(g, Exec(g, m, IndexOps(kind, a)), Stride(kind, INDEX_BASE + LINE * a, UNROLL))
         == Exec(g, m, IndexOps(kind, a + UNROLL))
  {
    hide Ok, Apply, Exec;
    ExecConcat(g, m, IndexOps(kind, a), Stride(kind, INDEX_BASE + LINE * a, UNROLL));
    StrideJoins(kind, INDEX_BASE, a, UNROLL);
  }

  /** The scope of the D phase is that of the flush, and the I-cache is as it was before the I phase. */
  lemma ScopesCarry(m: Machine, mid: Machine, m': Machine, first: nat, last: nat)
    requires m'.d == mid.d && m'.mem == mid.mem && mid.i == m.i
    ensures OnlyRange(m, mid, first, last) ==> OnlyRange(m, m', first, last)
    ensures AllSettled(m, mid) ==> AllSettled(m, m')
    ensures forall t :: SameInstr(mid, m', t) ==> SameInstr(m, m', t)
  {
    hide Settled;
    if OnlyRange(m, mid, first, last) {
      forall t: nat | t < LINES && (t < first / 32 || last / 32 < t) ensures SameData(m, m', t) {
        assert SameData(m, mid, t);
      }
    }
  }

  class Cpu {
    const g: Geometry
    const waybit: nat
    ghost const waycount: nat
    var m: Machine
    ghost var log: seq<CacheOp>

    /** The board: four ways of 4 KB, both caches empty. */
    constructor (mem: seq<Line>)
      requires |mem| == LINES
      ensures Valid() && g == Geometry(4, 128) && waybit == 12 && m == Machine(map[], map[], mem) && log == []
    {
      BoardGeometry();
      g, waybit, waycount := Geometry(4, 128), 12, 2;
      m, log := Machine(map[], map[], mem), [];
    }

    ghost predicate Valid()
      reads this
    {
      Built(g, waybit, waycount) && Ok(g, m)
    }

    /** Nothing but the steps `ops` happened. */
    twostate predicate Issued(ops: seq<CacheOp>)
      requires old(Valid())
      reads this
    {
      log == old(log) + ops && m == Exec(g, old(m), ops)
    }

    method CacheInstruction(kind: Kind, addr: nat)
      requires Valid()
      modifies this
      ensures Valid() && m == Apply(g, old(m), CacheOp(kind, addr)) && log == old(log) + [CacheOp(kind, addr)]
    {
      m := Apply(g, m, CacheOp(kind, addr));
      log := log + [CacheOp(kind, addr)];
    }

    /** The range loop, for bytes `start..end-1`; `end` may have wrapped to zero. */
    method BlastRange(kind: Kind, start: nat, end: nat)
      requires Valid() && start < SPACE && end < SPACE && start <= Wrap(end - 1)
      modifies this
      ensures Valid()
      ensures Issued(LineOps(kind, start / LINE, Span(start, Wrap(end - 1))))
    {
      hide Ok, Apply, Exec;
      var addr := LineStart(start);
      var aend := LineStart(Wrap(end - 1));
      ghost var t0, n := start / LINE, 0;
      StrideJoins(kind, LINE * t0, 0, 0);
      ExecNone(g, m);
      while true
        invariant Valid()
        invariant addr == LINE * (t0 + n) <= aend
        invariant log == old(log) + LineOps(kind, t0, n) && m == Exec(g, old(m), LineOps(kind, t0, n))
        decreases aend - addr
      {
        CacheInstruction(kind, addr);
        ExecGrow(g, old(m), LineOps(kind, t0, n), CacheOp(kind, addr));
        LineOpsGrow(kind, t0, n);
        n := n + 1;
        if addr == aend {
          break;
        }
        addr := Wrap(addr + LINE);
      }
    }

    /** `cache32_unroll32`: 32 consecutive lines from `base`. */
    method Unroll32(kind: Kind, base: nat)
      requires Valid()
      modifies this
      ensures Valid() && Issued(Stride(kind, base, UNROLL))
    {
      hide Ok, Apply, Exec;
      StrideJoins(kind, base, 0, 0);
      ExecNone(g, m);
      for k := 0 to UNROLL
        invariant Valid() && log == old(log) + Stride(kind, base, k) && m == Exec(g, old(m), Stride(kind, base, k))
      {
        CacheInstruction(kind, base + LINE * k);
        ExecGrow(g, old(m), Stride(kind, base, k), CacheOp(kind, base + LINE * k));
        StrideJoins(kind, base, k, 0);
      }
    }

    /** The inner whole-cache loop: every line of one way, 32 at a time. */
    method BlastWay(kind: Kind, ws: nat, ghost way: nat, ghost m0: Machine)
      requires Valid() && way < g.ways && ws == Shl(way, waybit)
      requires Ok(g, m0) && m == Exec(g, m0, IndexOps(kind, way * g.sets))
      modifies this
      ensures Valid() && m == Exec(g, m0, IndexOps(kind, way * g.sets + g.sets))
      ensures log == old(log) + Stride(kind, INDEX_BASE + ws, g.sets)
    {
      hide Ok, Apply, Exec, Shl, BitOr, IndexOps, Stride;
      WholeGroups(g, waybit, waycount);
      WayOffset(g, waybit, waycount, way);
      ghost var done, n := way * g.sets, 0;
      StrideJoins(kind, INDEX_BASE + ws, 0, 0);
      var start := INDEX_BASE;
      WayEnd(waybit);
      var end := Wrap(start + Shl(1, waybit));
      var addr := start;
      while addr < end
        invariant Valid() && addr == start + LINE * n && n % UNROLL == 0 && n <= g.sets
        invariant log == old(log) + Stride(kind, INDEX_BASE + ws, n)
        invariant m == Exec(g, m0, IndexOps(kind, done + n))
        decreases end - addr
      {
        GroupAddress(g, waybit, waycount, n, way, done);
        Unroll32(kind, BitOr(addr, ws));
        GroupDone(g, m0, kind, done + n);
        StrideJoins(kind, INDEX_BASE + ws, n, UNROLL);
        addr := addr + LINE * UNROLL;
        n := n + UNROLL;
      }
    }

    /** The whole-cache loop: every way in turn. */
    method Blast(kind: Kind)
      requires Valid()
      modifies this
      ensures Valid() && Issued(IndexOps(kind, g.ways * g.sets))
    {
      hide Ok, Apply, Exec, Shl;
      var wsInc := Shl(1, waybit);
      var wsEnd := Shl(g.ways, waybit);
      var ws := 0;
      ghost var way := 0;
      StrideJoins(kind, INDEX_BASE, 0, 0);
      ExecNone(g, m);
      WayStarts(g, waybit, waycount, 0);
      while ws < wsEnd
        invariant Valid() && way <= g.ways && ws == Shl(way, waybit)
        invariant log == old(log) + IndexOps(kind, way * g.sets) && m == Exec(g, old(m), IndexOps(kind, way * g.sets))
        decreases g.ways - way
      {
        WayStarts(g, waybit, waycount, way);
        BlastWay(kind, ws, way, old(m));
        StrideJoins(kind, INDEX_BASE, way * g.sets, g.sets);
        ws := ws + wsInc;
        way := way + 1;
      }
      WayStarts(g, waybit, waycount, way);
    }

    method DmaCacheWbackInv(addr: nat, size: nat)
      requires Valid() && 0 < size && addr + size <= SPACE
      modifies this
      ensures Valid() && WrittenBack(g, old(m), addr, addr + size - 1, m)
      ensures if size < 0x4000 then OnlyRange(old(m), m, addr, addr + size - 1) else AllSettled(old(m), m)
    {
      hide Ok, Exec, WrittenBack, OnlyRange, AllSettled;
      FlushDScope(g, waybit, waycount, m, size >= DCACHE_SIZE, addr, addr + size - 1);
      FlushDEffect(g, waybit, waycount, m, size >= DCACHE_SIZE, addr, addr + size - 1);
      if size >= DCACHE_SIZE {
        Blast(IndexWritebackInvD);
      } else {
        BlastRange(HitWritebackInvD, addr, Wrap(addr + size));
      }
    }

    method DmaCacheInv(addr: nat, size: nat)
      requires Valid() && 0 < size && addr + size <= SPACE
      modifies this
      ensures Valid() && Dropped(g, old(m), size >= 0x4000, addr, addr + size - 1, m)
      ensures if size < 0x4000 then OnlyRange(old(m), m, addr, addr + size - 1) else AllSettled(old(m), m)
    {
      hide Ok, Exec, Dropped, OnlyRange, AllSettled;
      DmaInvScope(g, waybit, waycount, m, size >= DCACHE_SIZE, addr, addr + size - 1);
      DmaInvEffect(g, waybit, waycount, m, size >= DCACHE_SIZE, addr, addr + size - 1);
      if size >= DCACHE_SIZE {
        Blast(IndexWritebackInvD);
      } else {
        CacheInstruction(HitWritebackInvD, LineStart(addr));
        CacheInstruction(HitWritebackInvD, LineStart(Wrap(addr + size - 1)));
        ExecConcat(g, old(m), BoundaryOps(addr / LINE, (addr + size - 1) / LINE),
                   LineOps(HitInvalidateD, addr / LINE, Span(addr, addr + size - 1)));
        TwoSteps(g, old(m), addr / LINE, (addr + size - 1) / LINE);
        BlastRange(HitInvalidateD, addr, Wrap(addr + size));
      }
    }

    /** `end` may have wrapped to zero, for a range that reaches the top of the address space. */
    method FlushIcacheRange(start: nat, end: nat)
      requires Valid() && start < SPACE && end < SPACE && start <= Wrap(end - 1)
      modifies this
      ensures Valid()
      ensures AllKept(old(m), m)
      ensures forall t :: 0 <= t < LINES && Meets(start, Wrap(end - 1), t) ==>
        !HeldI(m, t) && m.mem[t] == Settled(old(m), t) == Fetch(m, t)
      ensures if Wrap(end - start) < 0x4000 then OnlyRange(old(m), m, start, Wrap(end - 1)) else AllSettled(old(m), m)
      ensures if Wrap(end - start) > 0x4000 then m.i == map[]
              else forall t: nat :: t < LINES && (t < start / 32 || Wrap(end - 1) / 32 < t) ==> SameInstr(old(m), m, t)
      ensures Issued(FlushDOps(g, Wrap(end - start) >= DCACHE_SIZE, start, Wrap(end - 1))
                   + FlushIOps(g, Wrap(end - start) > ICACHE_SIZE, start, Wrap(end - 1)))
    {
      hide Ok, Exec, View, Settled, HeldD, HeldI, Fetch, WrittenBack, OnlyRange, AllSettled, SameInstr;
      var last := Wrap(end - 1);
      FlushDEffect(g, waybit, waycount, m, Wrap(end - start) >= DCACHE_SIZE, start, last);
      if Wrap(end - start) >= DCACHE_SIZE {
        Blast(IndexWritebackInvD);
      } else {
        BlastRange(HitWritebackInvD, start, end);
      }
      ghost var mid := m;
      FlushDScope(g, waybit, waycount, old(m), Wrap(end - start) >= DCACHE_SIZE, start, last);
      FlushIScope(g, waybit, waycount, mid, Wrap(end - start) > ICACHE_SIZE, start, last);
      FlushIEffect(g, waybit, waycount, mid, Wrap(end - start) > ICACHE_SIZE, start, last);
      if Wrap(end - start) > ICACHE_SIZE {
        Blast(IndexInvalidateI);
      } else {
        BlastRange(HitInvalidateI, start, end);
      }
      ExecConcat(g, old(m), FlushDOps(g, Wrap(end - start) >= DCACHE_SIZE, start, last),
                 FlushIOps(g, Wrap(end - start) > ICACHE_SIZE, start, last));
      FlushedSeen(g, old(m), start, last, mid, m);
      ScopesCarry(old(m), mid, m, start, last);
    }
  }
}
