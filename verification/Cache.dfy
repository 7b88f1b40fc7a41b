/** What the three routines of cache.c issue, by address or over the whole cache, and what that does to
    memory and to what loads see. */
module Cache {
  import opened CacheMachine
  import opened IndexLoops

  // ---------- what the routines issue, and what that does ----------

  /** Lines met by the bytes `first..last`. */
  function Span(first: nat, last: nat): nat
    requires first <= last
  {
    last / LINE - first / LINE + 1
  }

  predicate Meets(first: nat, last: nat, t: nat) {
    first / LINE <= t <= last / LINE
  }

  /** Those are the lines that hold a byte of the range. */
  lemma MeetsIff(first: nat, last: nat, t: nat)
    requires first <= last
    ensures Meets(first, last, t) <==> exists a :: first <= a <= last && a / 32 == t
  {
    var a := if first / 32 == t then first else 32 * t;
    if Meets(first, last, t) {
      assert first <= a <= last && a / 32 == t;
    }
  }

  /** The steps that clear bytes `first..last` out of the D-cache: by address, or the whole cache. */
  function FlushDOps(g: Geometry, whole: bool, first: nat, last: nat): seq<CacheOp>
    requires first <= last
  {
    if whole then IndexOps(IndexWritebackInvD, g.ways * g.sets)
    else LineOps(HitWritebackInvD, first / LINE, Span(first, last))
  }

  function FlushIOps(g: Geometry, whole: bool, first: nat, last: nat): seq<CacheOp>
    requires first <= last
  {
    if whole then IndexOps(IndexInvalidateI, g.ways * g.sets)
    else LineOps(HitInvalidateI, first / LINE, Span(first, last))
  }

  function DmaInvOps(g: Geometry, whole: bool, first: nat, last: nat): seq<CacheOp>
    requires first <= last
  {
    if whole then IndexOps(IndexWritebackInvD, g.ways * g.sets)
    else BoundaryOps(first / LINE, last / LINE)
         + LineOps(HitInvalidateD, first / LINE, Span(first, last))
  }

  /** No store is lost, and the range is in memory only. */
  ghost predicate WrittenBack(g: Geometry, m: Machine, first: nat, last: nat, m': Machine) {
    && Ok(g, m) && Ok(g, m') && m'.i == m.i && AllKept(m, m')
    && (forall t :: 0 <= t < LINES && Meets(first, last, t) ==> !HeldD(m', t) && m'.mem[t] == Settled(m, t))
  }

  lemma FlushDEffect(g: Geometry, waybit: nat, k: nat, m: Machine, whole: bool, first: nat, last: nat)
    requires Built(g, waybit, k) && Ok(g, m) && first <= last < SPACE
    ensures WrittenBack(g, m, first, last, Exec(g, m, FlushDOps(g, whole, first, last)))
  {
    hide View, Settled, Apply;
    if whole {
      WritebackAll(g, waybit, k, m);
    } else {
      WritebackRange(g, m, first / LINE, Span(first, last));
      RangeInMemory(m, Exec(g, m, LineOps(HitWritebackInvD, first / LINE, Span(first, last))), first, last);
    }
  }

  lemma RangeInMemory(m: Machine, m': Machine, first: nat, last: nat)
    requires AllKept(m, m') && forall t: nat :: Meets(first, last, t) ==> !HeldD(m', t)
    ensures forall t :: 0 <= t < LINES && Meets(first, last, t) ==> m'.mem[t] == Settled(m, t)
  {
    forall t | 0 <= t < LINES && Meets(first, last, t) ensures m'.mem[t] == Settled(m, t) {
      Unheld(m', t);
      assert Kept(m, m', t);
    }
  }

  lemma FlushIEffect(g: Geometry, waybit: nat, k: nat, m: Machine, whole: bool, first: nat, last: nat)
    requires Built(g, waybit, k) && Ok(g, m) && first <= last < SPACE
    ensures var m' := Exec(g, m, FlushIOps(g, whole, first, last));
      && m'.d == m.d && m'.mem == m.mem
      && (forall t :: 0 <= t < LINES && Meets(first, last, t) ==> !HeldI(m', t))
  {
    if whole {
      InstructionAll(g, waybit, k, m);
    } else {
      InstructionRange(g, m, first / LINE, Span(first, last));
    }
  }

  /** Line `t` lies wholly between the boundary lines of the range. */
  predicate Inner(first: nat, last: nat, t: nat) {
    first / LINE < t < last / LINE
  }

  /** Lines without a byte of the range are untouched in D-cache and memory. */
  ghost predicate OnlyRange(m: Machine, m': Machine, first: nat, last: nat) {
    forall t: nat :: t < LINES && (t < first / 32 || last / 32 < t) ==> SameData(m, m', t)
  }

  /** The whole D-cache is empty, and memory holds what every line settles to. */
  ghost predicate AllSettled(m: Machine, m': Machine) {
    |m.mem| == |m'.mem| == LINES && m'.d == map[] && forall t :: 0 <= t < LINES ==> m'.mem[t] == Settled(m, t)
  }

  /** How far the two D paths reach. */
  lemma FlushDScope(g: Geometry, waybit: nat, k: nat, m: Machine, whole: bool, first: nat, last: nat)
    requires Built(g, waybit, k) && Ok(g, m) && first <= last < SPACE
    ensures var m' := Exec(g, m, FlushDOps(g, whole, first, last));
      m'.i == m.i && if whole then AllSettled(m, m') else OnlyRange(m, m', first, last)
  {
    hide View, Settled, Apply, AllKept, SameData, HeldD;
    OkMemory(g, m);
    if whole {
      WritebackAll(g, waybit, k, m);
      OkMemory(g, Exec(g, m, FlushDOps(g, whole, first, last)));
    } else {
      WritebackRange(g, m, first / LINE, Span(first, last));
      forall t: nat | t < LINES && (t < first / 32 || last / 32 < t)
        ensures SameData(m, Exec(g, m, FlushDOps(g, whole, first, last)), t)
      {
        RangeTouches(g, m, HitWritebackInvD, first / LINE, Span(first, last), t);
      }
    }
  }

  /** How far the two I paths reach. */
  lemma FlushIScope(g: Geometry, waybit: nat, k: nat, m: Machine, whole: bool, first: nat, last: nat)
    requires Built(g, waybit, k) && Ok(g, m) && first <= last < SPACE
    ensures var m' := Exec(g, m, FlushIOps(g, whole, first, last));
      if whole then m'.i == map[]
      else forall t: nat :: t < LINES && (t < first / 32 || last / 32 < t) ==> SameInstr(m, m', t)
  {
    hide Apply, SameInstr;
    if whole {
      InstructionAll(g, waybit, k, m);
    } else {
      forall t: nat | t < LINES && (t < first / 32 || last / 32 < t)
        ensures SameInstr(m, Exec(g, m, FlushIOps(g, whole, first, last)), t)
      {
        RangeTouches(g, m, HitInvalidateI, first / LINE, Span(first, last), t);
      }
    }
  }

  /** After dropping the range: no line of it is held; lines outside it or only partly in it have lost no
      store; an inner line is what memory held, so what a device wrote there is seen (on the
      whole-cache path, what it settles to: a store still in the cache goes over it). */
  ghost predicate Dropped(g: Geometry, m: Machine, whole: bool, first: nat, last: nat, m': Machine) {
    && Ok(g, m) && Ok(g, m') && m'.i == m.i
    && (forall t :: 0 <= t < LINES && Meets(first, last, t) ==> !HeldD(m', t))
    && (forall t :: 0 <= t < LINES && !Inner(first, last, t) ==> Kept(m, m', t))
    && (forall t :: 0 <= t < LINES && Inner(first, last, t) ==> m'.mem[t] == if whole then Settled(m, t) else m.mem[t])
  }

  function BoundaryOps(t0: nat, t1: nat): seq<CacheOp> {
    [CacheOp(HitWritebackInvD, LINE * t0), CacheOp(HitWritebackInvD, LINE * t1)]
  }

  lemma BoundaryEffect(g: Geometry, m: Machine, t0: nat, t1: nat)
    requires Ok(g, m) && 0 < g.ways
    ensures var m' := Exec(g, m, BoundaryOps(t0, t1));
      && m'.i == m.i
      && (forall u: nat :: HeldD(m', u) <==> HeldD(m, u) && u != t0 && u != t1)
      && AllKept(m, m')
      && (forall u :: 0 <= u < LINES && u != t0 && u != t1 ==> m'.mem[u] == m.mem[u])
  {
    hide Ok, Apply, AllKept, HeldD;
    OkMemory(g, m);
    var ops := BoundaryOps(t0, t1);
    var m1 := Exec(g, m, ops[..1]);
    assert ops[..1][..0] == [] && Exec(g, m, []) == m;
    WritebackStep(g, m, ops[0]);
    WritebackStep(g, m1, ops[1]);
    KeptTwice(m, m1, Apply(g, m1, ops[1]));
  }

  lemma BoundaryThenDrop(g: Geometry, m: Machine, first: nat, last: nat, m1: Machine, m2: Machine)
    requires Ok(g, m) && Ok(g, m1) && Ok(g, m2) && first <= last < SPACE
    requires m1.i == m.i && m2.i == m1.i && m2.mem == m1.mem
    requires AllKept(m, m1)
    requires forall u :: 0 <= u < LINES && u != first / LINE && u != last / LINE ==> m1.mem[u] == m.mem[u]
    requires !HeldD(m1, first / LINE) && !HeldD(m1, last / LINE)
    requires forall u: nat :: Meets(first, last, u) ==> !HeldD(m2, u)
    requires forall u :: 0 <= u < LINES && !Meets(first, last, u) ==> Kept(m1, m2, u)
    ensures Dropped(g, m, false, first, last, m2)
  {
    hide Ok, View, Settled, HeldD, Meets;
    var t0, t1 := first / LINE, last / LINE;
    OkMemory(g, m);
    OkMemory(g, m1);
    MeetsEnds(first, last);
    Unheld(m1, t0);
    Unheld(m1, t1);
    Unheld(m2, t0);
    Unheld(m2, t1);
    forall t: nat | t < LINES && !Inner(first, last, t) ensures Kept(m, m2, t) {
      if Meets(first, last, t) {
        MeetsOrInner(first, last, t);
        assert Kept(m1, m2, t);
      }
      KeptChain(m, m1, m2, t);
    }
    forall t: nat | t < LINES && Inner(first, last, t) ensures m2.mem[t] == m.mem[t] {
    }
  }

  lemma MeetsEnds(first: nat, last: nat)
    requires first <= last
    ensures Meets(first, last, first / LINE) && Meets(first, last, last / LINE)
  {
  }

  lemma MeetsOrInner(first: nat, last: nat, t: nat)
    requires Meets(first, last, t) && !Inner(first, last, t)
    ensures t == first / LINE || t == last / LINE
  {
  }

  lemma DmaInvByAddress(g: Geometry, m: Machine, first: nat, last: nat)
    requires Ok(g, m) && 0 < g.ways && first <= last < SPACE
    ensures Dropped(g, m, false, first, last, Exec(g, m, DmaInvOps(g, false, first, last)))
  {
    hide Ok, Apply, AllKept, Kept, HeldD, Exec, Dropped;
    var t0, t1 := first / LINE, last / LINE;
    OkMemory(g, m);
    var m1 := Exec(g, m, BoundaryOps(t0, t1));
    BoundaryEffect(g, m, t0, t1);
    OkMemory(g, m1);
    ExecConcat(g, m, BoundaryOps(t0, t1), LineOps(HitInvalidateD, t0, Span(first, last)));
    InvalidateRange(g, m1, t0, Span(first, last));
    OkMemory(g, Exec(g, m1, LineOps(HitInvalidateD, t0, Span(first, last))));
    BoundaryThenDrop(g, m, first, last, m1, Exec(g, m1, LineOps(HitInvalidateD, t0, Span(first, last))));
  }

  lemma DmaInvTouches(g: Geometry, m: Machine, first: nat, last: nat, t: nat)
    requires Ok(g, m) && 0 < g.ways && first <= last < SPACE && t < LINES && (t < first / 32 || last / 32 < t)
    ensures SameData(m, Exec(g, m, DmaInvOps(g, false, first, last)), t)
  {
    hide Ok, Apply, SameData;
    var t0, t1 := first / LINE, last / LINE;
    var ops := BoundaryOps(t0, t1);
    var m0 := Exec(g, m, ops[..1]);
    assert ops[..1][..0] == [] && Exec(g, m, []) == m;
    HitTouches(g, m, ops[0], t);
    HitTouches(g, m0, ops[1], t);
    SameDataChain(m, m0, Exec(g, m, ops), t);
    ExecConcat(g, m, ops, LineOps(HitInvalidateD, t0, Span(first, last)));
    RangeTouches(g, Exec(g, m, ops), HitInvalidateD, t0, Span(first, last), t);
    SameDataChain(m, Exec(g, m, ops), Exec(g, m, DmaInvOps(g, false, first, last)), t);
  }

  /** How far the two paths of `dma_cache_inv` reach. */
  lemma DmaInvScope(g: Geometry, waybit: nat, k: nat, m: Machine, whole: bool, first: nat, last: nat)
    requires Built(g, waybit, k) && Ok(g, m) && first <= last < SPACE
    ensures var m' := Exec(g, m, DmaInvOps(g, whole, first, last));
      if whole then AllSettled(m, m') else OnlyRange(m, m', first, last)
  {
    hide Exec, Ok, SameData, AllSettled;
    if whole {
      FlushDScope(g, waybit, k, m, true, first, last);
    } else {
      forall t: nat | t < LINES && (t < first / 32 || last / 32 < t)
        ensures SameData(m, Exec(g, m, DmaInvOps(g, false, first, last)), t)
      {
        DmaInvTouches(g, m, first, last, t);
      }
    }
  }

  /** Both paths of `dma_cache_inv` drop the range, whatever a device has written behind the cache. */
  lemma DmaInvEffect(g: Geometry, waybit: nat, k: nat, m: Machine, whole: bool, first: nat, last: nat)
    requires Built(g, waybit, k) && Ok(g, m) && first <= last < SPACE
    ensures Dropped(g, m, whole, first, last, Exec(g, m, DmaInvOps(g, whole, first, last)))
  {
    hide View, Settled, Apply, Kept;
    if whole {
      WritebackAll(g, waybit, k, m);
    } else {
      DmaInvByAddress(g, m, first, last);
    }
  }

  /** A load of byte `a` sees what memory will hold of it: no out-of-date clean copy of that byte. */
  ghost predicate ByteAgrees(m: Machine, a: nat)
    requires a / LINE < |m.mem|
  {
    View(m, a / LINE)[a % LINE] == Settled(m, a / LINE)[a % LINE]
  }

  /** `dma_cache_inv` loses no byte outside its range, even one that shares a line with it; a byte that
      does share one is seen as before exactly when it was not seen through an out-of-date clean copy. */
  lemma OutsideKept(g: Geometry, m: Machine, whole: bool, first: nat, last: nat, m': Machine, a: nat)
    requires first <= last < SPACE && Dropped(g, m, whole, first, last, m')
    requires a < SPACE && !(first <= a <= last)
    ensures var same := View(m', a / LINE)[a % LINE] == View(m, a / LINE)[a % LINE];
      (ByteAgrees(m, a) ==> same) && (Meets(first, last, a / LINE) ==> (same <==> ByteAgrees(m, a)))
  {
    hide View, Settled;
    assert Kept(m, m', a / LINE);
    if Meets(first, last, a / LINE) {
      Unheld(m', a / LINE);
    }
  }

  /** After it, a load from an inner line sees what a device wrote there, and on the whole-cache path it
      does so exactly when no other value was left to be written back. */
  lemma DeviceDataSeen(g: Geometry, m: Machine, whole: bool, first: nat, last: nat, m': Machine, t: nat)
    requires first <= last < SPACE && Dropped(g, m, whole, first, last, m') && t < LINES && Inner(first, last, t)
    ensures View(m', t) == m.mem[t] <==> !whole || Settled(m, t) == m.mem[t]
  {
    hide Settled;
    Unheld(m', t);
  }
}
