/** A set-associative write-back D-cache and an I-cache over memory, with the steps of the CACHE
    instruction (MIPS32 Architecture For Programmers, Volume II) that cache.c uses. */
module CacheMachine {

  const LINE: nat := 32
  const SPACE: nat := 0x1_0000_0000
  const LINES: nat := SPACE / LINE

  type byte = x: int | 0 <= x < 256
  type Line = l: seq<byte> | |l| == LINE witness seq(LINE, _ => 0)

  /** `ways` ways of `sets` lines each. */
  datatype Geometry = Geometry(ways: nat, sets: nat)

  datatype Slot = Slot(way: nat, index: nat)
  /** `tag` is the line number, that is the address divided by the line size. */
  datatype DLine = DLine(tag: nat, dirty: bool, data: Line)
  datatype ILine = ILine(tag: nat, data: Line)
  datatype Machine = Machine(d: map<Slot, DLine>, i: map<Slot, ILine>, mem: seq<Line>)

  datatype Kind = IndexWritebackInvD | HitWritebackInvD | HitInvalidateD | IndexInvalidateI | HitInvalidateI
  datatype CacheOp = CacheOp(kind: Kind, addr: nat)

  predicate SlotOk(g: Geometry, s: Slot, tag: nat) {
    s.way < g.ways && s.index < g.sets && tag % g.sets == s.index && tag < LINES
  }

  /** Lines sit in their set and no line sits in two ways. A clean line may be out of date: a device may
      have written memory behind it. */
  ghost predicate Ok(g: Geometry, m: Machine) {
    && 0 < g.sets && |m.mem| == LINES
    && (forall s :: s in m.d ==> SlotOk(g, s, m.d[s].tag))
    && (forall s, s' :: s in m.d && s' in m.d && m.d[s].tag == m.d[s'].tag ==> s == s')
    && (forall s :: s in m.i ==> SlotOk(g, s, m.i[s].tag))
    && (forall s, s' :: s in m.i && s' in m.i && m.i[s].tag == m.i[s'].tag ==> s == s')
  }

  predicate HeldD(m: Machine, t: nat) {
    exists s :: s in m.d && m.d[s].tag == t
  }

  ghost predicate HeldI(m: Machine, t: nat) {
    exists s :: s in m.i && m.i[s].tag == t
  }

  predicate HeldDirty(m: Machine, t: nat) {
    exists s :: s in m.d && m.d[s].tag == t && m.d[s].dirty
  }

  /** What memory holds of line `t` once it is written back. */
  ghost function Settled(m: Machine, t: nat): Line
    requires t < |m.mem|
  {
    if HeldDirty(m, t) then
      var s :| s in m.d && m.d[s].tag == t && m.d[s].dirty;
      m.d[s].data
    else m.mem[t]
  }

  /** The line is not an out-of-date clean copy. */
  ghost predicate Agrees(m: Machine, t: nat)
    requires t < |m.mem|
  {
    View(m, t) == Settled(m, t)
  }

  /** No store is lost: line `t` settles to the same value, and a load sees what it saw or that value. */
  ghost predicate Kept(m: Machine, m': Machine, t: nat)
    requires t < |m.mem| == |m'.mem|
  {
    Settled(m', t) == Settled(m, t) && (View(m', t) == View(m, t) || View(m', t) == Settled(m, t))
  }

  ghost predicate AllKept(m: Machine, m': Machine) {
    |m.mem| == |m'.mem| == LINES && forall t :: 0 <= t < LINES ==> Kept(m, m', t)
  }

  /** Line `t` is untouched: the same copy in the same slot or none, over the same memory. */
  ghost predicate SameData(m: Machine, m': Machine, t: nat) {
    && t < |m.mem| == |m'.mem| && m'.mem[t] == m.mem[t]
    && (forall s :: s in m.d && m.d[s].tag == t ==> s in m'.d && m'.d[s] == m.d[s])
    && (forall s :: s in m'.d && m'.d[s].tag == t ==> s in m.d && m.d[s] == m'.d[s])
  }

  /** The I-cache copy of line `t` is untouched. */
  ghost predicate SameInstr(m: Machine, m': Machine, t: nat) {
    && (forall s :: s in m.i && m.i[s].tag == t ==> s in m'.i && m'.i[s] == m.i[s])
    && (forall s :: s in m'.i && m'.i[s].tag == t ==> s in m.i && m.i[s] == m'.i[s])
  }

  lemma SameDataChain(m: Machine, m1: Machine, m2: Machine, t: nat)
    requires SameData(m, m1, t) && SameData(m1, m2, t)
    ensures SameData(m, m2, t)
  {
  }

  lemma SameInstrChain(m: Machine, m1: Machine, m2: Machine, t: nat)
    requires SameInstr(m, m1, t) && SameInstr(m1, m2, t)
    ensures SameInstr(m, m2, t)
  {
  }

  lemma KeptChain(m: Machine, m1: Machine, m2: Machine, t: nat)
    requires |m.mem| == |m1.mem| == |m2.mem| && t < |m.mem| && Kept(m, m1, t) && Kept(m1, m2, t)
    ensures Kept(m, m2, t)
  {
    hide View, Settled;
  }

  lemma KeptTwice(m: Machine, m1: Machine, m2: Machine)
    requires AllKept(m, m1) && AllKept(m1, m2)
    ensures AllKept(m, m2)
  {
    hide Kept;
    forall t | 0 <= t < LINES ensures Kept(m, m2, t) {
      KeptChain(m, m1, m2, t);
    }
  }

  lemma KeptSame(m: Machine)
    requires |m.mem| == LINES
    ensures AllKept(m, m)
  {
    hide View, Settled;
  }

  /** Where a load did not see an out-of-date clean copy, it sees the same as before. */
  lemma LoadsUnchanged(m: Machine, m': Machine, t: nat)
    requires AllKept(m, m') && t < LINES && Agrees(m, t)
    ensures View(m', t) == View(m, t) && Agrees(m', t)
  {
    hide View, Settled;
    assert Kept(m, m', t);
  }

  /** A line the D-cache does not hold is what memory holds. */
  lemma Unheld(m: Machine, t: nat)
    requires t < |m.mem| && !HeldD(m, t)
    ensures View(m, t) == Settled(m, t) == m.mem[t]
  {
  }

  /** What a load sees of line `t`. */
  ghost function View(m: Machine, t: nat): Line
    requires t < |m.mem|
  {
    if HeldD(m, t) then
      var s :| s in m.d && m.d[s].tag == t;
      m.d[s].data
    else m.mem[t]
  }

  /** What an instruction fetch sees of line `t`. */
  ghost function Fetch(m: Machine, t: nat): Line
    requires t < |m.mem|
  {
    if HeldI(m, t) then
      var s :| s in m.i && m.i[s].tag == t;
      m.i[s].data
    else m.mem[t]
  }

  // ---------- the steps ----------

  function IndexSlot(g: Geometry, addr: nat): Slot
    requires 0 < g.ways && 0 < g.sets
  {
    Slot(addr / (LINE * g.sets) % g.ways, addr / LINE % g.sets)
  }

  /** Writes the line in slot `s` back if it is dirty, and drops it. */
  function Evict(m: Machine, s: Slot): Machine
    requires s in m.d && m.d[s].tag < |m.mem|
  {
    m.(d := m.d - {s}, mem := if m.d[s].dirty then m.mem[m.d[s].tag := m.d[s].data] else m.mem)
  }

  /** Dropping a line after writing it back loses no store and touches no other line. */
  lemma EvictEffect(g: Geometry, m: Machine, s: Slot)
    requires Ok(g, m) && s in m.d
    ensures var m', t := Evict(m, s), m.d[s].tag;
      && Ok(g, m') && m'.i == m.i
      && (forall u :: HeldD(m', u) <==> HeldD(m, u) && u != t)
      && AllKept(m, m')
      && m'.mem == m.mem[t := Settled(m, t)]
  {
    var m', t := Evict(m, s), m.d[s].tag;
    EvictHeld(g, m, s);
    assert m'.mem == m.mem[t := Settled(m, t)] by {
      if m.d[s].dirty { assert HeldDirty(m, t); }
    }
    forall u | 0 <= u < LINES ensures Kept(m, m', u) {
      if u == t {
        Unheld(m', t);
      } else {
        SameLine(g, m, m', u);
      }
    }
  }

  lemma EvictHeld(g: Geometry, m: Machine, s: Slot)
    requires Ok(g, m) && s in m.d
    ensures var m', t := Evict(m, s), m.d[s].tag;
      Ok(g, m') && forall u: nat :: HeldD(m', u) <==> HeldD(m, u) && u != t
  {
    var m', t := Evict(m, s), m.d[s].tag;
    forall u: nat ensures HeldD(m', u) <==> HeldD(m, u) && u != t {
      if HeldD(m, u) && u != t {
        var r :| r in m.d && m.d[r].tag == u;
        assert r in m'.d;
      }
    }
  }

  /** A line that sits where it sat, over the same memory, is seen and settles as before. */
  lemma SameLine(g: Geometry, m: Machine, m': Machine, u: nat)
    requires Ok(g, m) && Ok(g, m') && u < LINES && m'.mem[u] == m.mem[u] && m'.d.Keys <= m.d.Keys
    requires forall s :: s in m'.d ==> m'.d[s] == m.d[s]
    requires forall s :: s in m.d && m.d[s].tag == u ==> s in m'.d
    ensures View(m', u) == View(m, u) && Settled(m', u) == Settled(m, u)
  {
    if HeldD(m, u) {
      var s :| s in m.d && m.d[s].tag == u;
      assert s in m'.d && m'.d[s].tag == u;
      assert HeldDirty(m, u) <==> m.d[s].dirty;
      assert HeldDirty(m', u) <==> m.d[s].dirty;
    } else {
      assert !HeldD(m', u);
    }
  }

  function Apply(g: Geometry, m: Machine, op: CacheOp): (m': Machine)
    requires Ok(g, m) && 0 < g.ways
    ensures Ok(g, m')
  {
    var t := op.addr / LINE;
    var slot := IndexSlot(g, op.addr);
    match op.kind
    case IndexWritebackInvD => if slot in m.d then EvictEffect(g, m, slot); Evict(m, slot) else m
    case HitWritebackInvD =>
      if HeldD(m, t) then
        var s :| s in m.d && m.d[s].tag == t;
        EvictEffect(g, m, s);
        Evict(m, s)
      else m
    case HitInvalidateD => m.(d := map s | s in m.d && m.d[s].tag != t :: m.d[s])
    case IndexInvalidateI => m.(i := m.i - {slot})
    case HitInvalidateI => m.(i := map s | s in m.i && m.i[s].tag != t :: m.i[s])
  }

  predicate WritesBack(kind: Kind) {
    kind == IndexWritebackInvD || kind == HitWritebackInvD
  }

  /** Write-back steps lose no store; memory changes only on a line that is dropped. */
  lemma WritebackStep(g: Geometry, m: Machine, op: CacheOp)
    requires Ok(g, m) && 0 < g.ways && WritesBack(op.kind)
    ensures var m' := Apply(g, m, op);
      && m'.i == m.i && m'.d.Keys <= m.d.Keys
      && (forall u :: HeldD(m', u) ==> HeldD(m, u))
      && AllKept(m, m')
      && (forall u :: 0 <= u < LINES && (HeldD(m, u) ==> HeldD(m', u)) ==> m'.mem[u] == m.mem[u])
      && (op.kind == HitWritebackInvD ==> forall u :: HeldD(m', u) <==> HeldD(m, u) && u != op.addr / LINE)
      && (op.kind == IndexWritebackInvD ==> IndexSlot(g, op.addr) !in m'.d)
  {
    if op.kind == HitWritebackInvD && HeldD(m, op.addr / LINE) {
      var s :| s in m.d && m.d[s].tag == op.addr / LINE;
      EvictEffect(g, m, s);
    } else if op.kind == IndexWritebackInvD && IndexSlot(g, op.addr) in m.d {
      EvictEffect(g, m, IndexSlot(g, op.addr));
    }
  }

  /** Hit Invalidate drops the addressed line, dirty or not, and leaves memory and every other line alone. */
  lemma InvalidateStep(g: Geometry, m: Machine, op: CacheOp)
    requires Ok(g, m) && 0 < g.ways && op.kind == HitInvalidateD
    ensures var m', t := Apply(g, m, op), op.addr / LINE;
      && m'.i == m.i && m'.mem == m.mem
      && (forall u :: HeldD(m', u) <==> HeldD(m, u) && u != t)
      && (forall u :: 0 <= u < LINES && u != t ==> Kept(m, m', u))
  {
    var m', t := Apply(g, m, op), op.addr / LINE;
    forall u: nat ensures HeldD(m', u) <==> HeldD(m, u) && u != t {
      if HeldD(m, u) && u != t {
        var r :| r in m.d && m.d[r].tag == u;
        assert r in m'.d;
      }
    }
    forall u | 0 <= u < LINES && u != t ensures Kept(m, m', u) {
      SameLine(g, m, m', u);
    }
  }

  /** A step by address touches no other line. */
  lemma HitTouches(g: Geometry, m: Machine, op: CacheOp, t: nat)
    requires Ok(g, m) && 0 < g.ways && t < LINES && t != op.addr / LINE
    ensures op.kind == HitWritebackInvD || op.kind == HitInvalidateD ==> SameData(m, Apply(g, m, op), t)
    ensures op.kind == HitInvalidateI ==> SameInstr(m, Apply(g, m, op), t)
  {
    if op.kind == HitWritebackInvD && HeldD(m, op.addr / LINE) {
      var s :| s in m.d && m.d[s].tag == op.addr / LINE && Apply(g, m, op) == Evict(m, s);
    }
  }

  lemma InstructionStep(g: Geometry, m: Machine, op: CacheOp)
    requires Ok(g, m) && 0 < g.ways && (op.kind == HitInvalidateI || op.kind == IndexInvalidateI)
    ensures var m' := Apply(g, m, op);
      && m'.d == m.d && m'.mem == m.mem && m'.i.Keys <= m.i.Keys
      && (forall u :: HeldI(m', u) ==> HeldI(m, u))
      && (op.kind == HitInvalidateI ==> !HeldI(m', op.addr / LINE))
      && (op.kind == IndexInvalidateI ==> IndexSlot(g, op.addr) !in m'.i)
  {
  }

  // ---------- sequences of steps ----------

  function Exec(g: Geometry, m: Machine, ops: seq<CacheOp>): (m': Machine)
    requires Ok(g, m) && 0 < g.ways
    ensures Ok(g, m')
  {
    if ops == [] then m else Apply(g, Exec(g, m, ops[..|ops|-1]), ops[|ops|-1])
  }

  lemma {:induction false} ExecConcat(g: Geometry, m: Machine, a: seq<CacheOp>, b: seq<CacheOp>)
    requires Ok(g, m) && 0 < g.ways
    ensures Exec(g, m, a + b) == Exec(g, Exec(g, m, a), b)
  {
    hide Ok, Apply;
    if b == [] {
      assert a + b == a;
    } else {
      ExecConcat(g, m, a, b[..|b|-1]);
      assert (a + b)[..|a+b|-1] == a + b[..|b|-1];
    }
  }

  lemma ExecGrow(g: Geometry, m: Machine, ops: seq<CacheOp>, op: CacheOp)
    requires Ok(g, m) && 0 < g.ways
    ensures Exec(g, m, ops + [op]) == Apply(g, Exec(g, m, ops), op)
  {
    assert (ops + [op])[..|ops|] == ops;
  }

  /** One step of kind `kind` on each of `n` consecutive lines, ascending from address `base`. */
  function Stride(kind: Kind, base: nat, n: nat): seq<CacheOp> {
    seq(n, k requires 0 <= k => CacheOp(kind, base + LINE * k))
  }

  lemma StrideJoins(kind: Kind, base: nat, a: nat, b: nat)
    ensures Stride(kind, base, a) + Stride(kind, base + LINE * a, b) == Stride(kind, base, a + b)
    ensures Stride(kind, base, a) + [CacheOp(kind, base + LINE * a)] == Stride(kind, base, a + 1)
    ensures Stride(kind, base, 0) == []
  {
  }

  /** The steps of a range loop: lines `t0`, `t0 + 1`, ... in ascending order, each once. */
  function LineOps(kind: Kind, t0: nat, n: nat): seq<CacheOp> {
    Stride(kind, LINE * t0, n)
  }

  lemma LineOpsGrow(kind: Kind, t0: nat, n: nat)
    ensures LineOps(kind, t0, n + 1) == LineOps(kind, t0, n) + [CacheOp(kind, LINE * (t0 + n))]
  {
  }

  lemma SameAlready(g: Geometry, m: Machine, t: nat)
    requires Ok(g, m) && t < LINES
    ensures SameData(m, m, t) && SameInstr(m, m, t)
  {
  }

  lemma {:induction false} RangeTouches(g: Geometry, m: Machine, kind: Kind, t0: nat, n: nat, t: nat)
    requires Ok(g, m) && 0 < g.ways && t < LINES && !(t0 <= t < t0 + n)
    ensures var m' := Exec(g, m, LineOps(kind, t0, n));
      && (kind == HitWritebackInvD || kind == HitInvalidateD ==> SameData(m, m', t))
      && (kind == HitInvalidateI ==> SameInstr(m, m', t))
  {
    hide Ok, Apply, SameData, SameInstr;
    SameAlready(g, m, t);
    if n > 0 {
      RangeTouches(g, m, kind, t0, n - 1, t);
      LineOpsGrow(kind, t0, n - 1);
      var m1, op := Exec(g, m, LineOps(kind, t0, n - 1)), CacheOp(kind, LINE * (t0 + n - 1));
      HitTouches(g, m1, op, t);
      if kind == HitInvalidateI {
        SameInstrChain(m, m1, Apply(g, m1, op), t);
      } else if kind == HitWritebackInvD || kind == HitInvalidateD {
        SameDataChain(m, m1, Apply(g, m1, op), t);
      }
    }
  }

  lemma OkMemory(g: Geometry, m: Machine)
    requires Ok(g, m)
    ensures |m.mem| == LINES
  {
  }

  lemma {:induction false} WritebackRange(g: Geometry, m: Machine, t0: nat, n: nat)
    requires Ok(g, m) && 0 < g.ways
    ensures var m' := Exec(g, m, LineOps(HitWritebackInvD, t0, n));
      && m'.i == m.i
      && (forall u: nat :: HeldD(m', u) <==> HeldD(m, u) && !(t0 <= u < t0 + n))
      && AllKept(m, m')
      && (forall u :: 0 <= u < LINES && !(t0 <= u < t0 + n) ==> m'.mem[u] == m.mem[u])
  {
    hide Ok, Apply, HeldD, AllKept;
    OkMemory(g, m);
    if n > 0 {
      WritebackRange(g, m, t0, n - 1);
      LineOpsGrow(HitWritebackInvD, t0, n - 1);
      var m1 := Exec(g, m, LineOps(HitWritebackInvD, t0, n - 1));
      var op := CacheOp(HitWritebackInvD, LINE * (t0 + n - 1));
      WritebackStep(g, m1, op);
      KeptTwice(m, m1, Apply(g, m1, op));
    } else {
      KeptSame(m);
    }
  }

  lemma {:induction false} InvalidateRange(g: Geometry, m: Machine, t0: nat, n: nat)
    requires Ok(g, m) && 0 < g.ways
    ensures var m' := Exec(g, m, LineOps(HitInvalidateD, t0, n));
      && m'.i == m.i && m'.mem == m.mem
      && (forall u: nat :: HeldD(m', u) <==> HeldD(m, u) && !(t0 <= u < t0 + n))
      && (forall u :: 0 <= u < LINES && !(t0 <= u < t0 + n) ==> Kept(m, m', u))
  {
    hide Ok, Apply, Kept, HeldD;
    OkMemory(g, m);
    if n > 0 {
      InvalidateRange(g, m, t0, n - 1);
      LineOpsGrow(HitInvalidateD, t0, n - 1);
      var m1 := Exec(g, m, LineOps(HitInvalidateD, t0, n - 1));
      var op := CacheOp(HitInvalidateD, LINE * (t0 + n - 1));
      InvalidateStep(g, m1, op);
      forall u | 0 <= u < LINES && !(t0 <= u < t0 + n) ensures Kept(m, Apply(g, m1, op), u) {
        KeptChain(m, m1, Apply(g, m1, op), u);
      }
    } else {
      KeptSame(m);
    }
  }

  lemma {:induction false} InstructionRange(g: Geometry, m: Machine, t0: nat, n: nat)
    requires Ok(g, m) && 0 < g.ways
    ensures var m' := Exec(g, m, LineOps(HitInvalidateI, t0, n));
      && m'.d == m.d && m'.mem == m.mem
      && (forall u: nat :: t0 <= u < t0 + n ==> !HeldI(m', u))
  {
    hide Ok, Apply, HeldI;
    if n > 0 {
      InstructionRange(g, m, t0, n - 1);
      LineOpsGrow(HitInvalidateI, t0, n - 1);
      InstructionStep(g, Exec(g, m, LineOps(HitInvalidateI, t0, n - 1)), CacheOp(HitInvalidateI, LINE * (t0 + n - 1)));
    }
  }
}
