/** Why cache.c flushes the D-cache before the I-cache: instruction fetches may happen between any two
    steps. */
module CacheFetches {
  import opened CacheMachine
  import opened IndexLoops
  import opened Cache

  // ---------- instruction fetches in between ----------

  /** Between two steps the processor may fetch any instruction line into the I-cache. */
  datatype Event = Step(op: CacheOp) | Refill(way: nat, tag: nat)

  predicate EventOk(g: Geometry, e: Event) {
    e.Refill? ==> e.way < g.ways && e.tag < LINES
  }

  /** A refill takes the line from memory, in place of what its slot held. */
  function Happen(g: Geometry, m: Machine, e: Event): (m': Machine)
    requires Ok(g, m) && 0 < g.ways && EventOk(g, e)
    ensures Ok(g, m')
  {
    match e
    case Step(op) => Apply(g, m, op)
    case Refill(way, tag) =>
      m.(i := (map s | s in m.i && m.i[s].tag != tag :: m.i[s])[Slot(way, tag % g.sets) := ILine(tag, m.mem[tag])])
  }

  function HappenAll(g: Geometry, m: Machine, es: seq<Event>): (m': Machine)
    requires Ok(g, m) && 0 < g.ways && forall e :: e in es ==> EventOk(g, e)
    ensures Ok(g, m')
    decreases |es|
  {
    if es == [] then m else HappenAll(g, Happen(g, m, es[0]), es[1..])
  }

  /** The steps among the events. */
  function StepsOf(es: seq<Event>): seq<CacheOp> {
    if es == [] then [] else (if es[0].Step? then [es[0].op] else []) + StepsOf(es[1..])
  }

  /** Slot `s` does not hold an out-of-date copy of line `t`. */
  ghost predicate NotStale(m: Machine, s: Slot, t: nat)
    requires t < |m.mem|
  {
    s in m.i && m.i[s].tag == t ==> m.i[s].data == m.mem[t]
  }

  /** Step `op` clears line `t` out of slot `s` of the I-cache. */
  predicate Clears(g: Geometry, op: CacheOp, s: Slot, t: nat)
    requires 0 < g.ways && 0 < g.sets
  {
    (op.kind == HitInvalidateI && op.addr / LINE == t) || (op.kind == IndexInvalidateI && IndexSlot(g, op.addr) == s)
  }

  predicate OnI(op: CacheOp) {
    op.kind == HitInvalidateI || op.kind == IndexInvalidateI
  }

  /** While only I-cache steps and refills happen, memory stands still and a slot that is not stale
      stays so; a step that clears the slot makes it so. */
  lemma {:induction false} StaysFresh(g: Geometry, m: Machine, es: seq<Event>, s: Slot, t: nat)
    requires Ok(g, m) && 0 < g.ways && t < LINES
    requires forall e :: e in es ==> EventOk(g, e) && (e.Step? ==> OnI(e.op))
    requires NotStale(m, s, t) || exists e :: e in es && e.Step? && Clears(g, e.op, s, t)
    ensures var m' := HappenAll(g, m, es); m'.mem == m.mem && m'.d == m.d && NotStale(m', s, t)
    decreases |es|
  {
    if es != [] {
      var m1 := Happen(g, m, es[0]);
      assert m1.mem == m.mem && m1.d == m.d;
      assert es == [es[0]] + es[1..];
      StaysFresh(g, m1, es[1..], s, t);
    }
  }

  lemma ViewSame(g: Geometry, m: Machine, n: Machine, t: nat)
    requires Ok(g, m) && Ok(g, n) && m.d == n.d && m.mem == n.mem && t < LINES
    ensures View(m, t) == View(n, t) && Settled(m, t) == Settled(n, t)
  {
    if HeldD(m, t) {
      var s :| s in m.d && m.d[s].tag == t;
      assert s in n.d && n.d[s].tag == t;
    }
    if HeldDirty(m, t) {
      var s :| s in m.d && m.d[s].tag == t && m.d[s].dirty;
      assert s in n.d && n.d[s].tag == t && n.d[s].dirty;
    }
  }

  /** D-cache steps neither see nor change the I-cache. */
  lemma SameHit(g: Geometry, m: Machine, n: Machine, op: CacheOp)
    requires Ok(g, m) && Ok(g, n) && 0 < g.ways && m.d == n.d && m.mem == n.mem && op.kind == HitWritebackInvD
    ensures Apply(g, m, op).d == Apply(g, n, op).d && Apply(g, m, op).mem == Apply(g, n, op).mem
  {
    if HeldD(m, op.addr / LINE) {
      var s :| s in m.d && m.d[s].tag == op.addr / LINE;
      assert HeldD(n, op.addr / LINE);
      assert Apply(g, m, op) == Evict(m, s) && Apply(g, n, op) == Evict(n, s);
    }
  }

  lemma DataStepSame(g: Geometry, m: Machine, n: Machine, op: CacheOp)
    requires Ok(g, m) && Ok(g, n) && 0 < g.ways && m.d == n.d && m.mem == n.mem && !OnI(op)
    ensures Apply(g, m, op).d == Apply(g, n, op).d && Apply(g, m, op).mem == Apply(g, n, op).mem
  {
    if op.kind == HitWritebackInvD {
      SameHit(g, m, n, op);
    } else {
      hide Ok, HeldD;
    }
  }

  lemma ExecOne(g: Geometry, m: Machine, op: CacheOp)
    requires Ok(g, m) && 0 < g.ways
    ensures Exec(g, m, [op]) == Apply(g, m, op)
  {
    assert [op][..0] == [];
  }

  /** Refills do not disturb D-cache steps. */
  lemma {:induction false} DataPhase(g: Geometry, m: Machine, n: Machine, es: seq<Event>)
    requires Ok(g, m) && Ok(g, n) && 0 < g.ways && m.d == n.d && m.mem == n.mem
    requires forall e :: e in es ==> EventOk(g, e) && (e.Step? ==> !OnI(e.op))
    ensures var (m', n') := (HappenAll(g, m, es), Exec(g, n, StepsOf(es))); m'.d == n'.d && m'.mem == n'.mem
    decreases |es|
  {
    hide Ok, Apply;
    if es != [] {
      var e, rest := es[0], es[1..];
      assert es == [e] + rest;
      if e.Step? {
        DataStepSame(g, m, n, e.op);
        ExecConcat(g, n, [e.op], StepsOf(rest));
        ExecOne(g, n, e.op);
        DataPhase(g, Happen(g, m, e), Apply(g, n, e.op), rest);
      } else {
        assert StepsOf(es) == StepsOf(rest);
        DataPhase(g, Happen(g, m, e), n, rest);
      }
    }
  }

  lemma {:induction false} SplitEvents(es: seq<Event>, a: seq<CacheOp>, b: seq<CacheOp>) returns (n: nat)
    requires StepsOf(es) == a + b
    ensures n <= |es| && StepsOf(es[..n]) == a && StepsOf(es[n..]) == b
  {
    if a == [] {
      n := 0;
      assert es[..0] == [] && es[0..] == es && a + b == b;
    } else if es[0].Step? {
      assert StepsOf(es)[0] == a[0] && StepsOf(es[1..]) == StepsOf(es)[1..] == a[1..] + b;
      n := SplitEvents(es[1..], a[1..], b);
      n := n + 1;
      assert es[..n][1..] == es[1..][..n-1] && es[n..] == es[1..][n-1..];
    } else {
      n := SplitEvents(es[1..], a, b);
      n := n + 1;
      assert es[..n][1..] == es[1..][..n-1] && es[n..] == es[1..][n-1..];
    }
  }

  lemma {:induction false} HappenConcat(g: Geometry, m: Machine, es: seq<Event>, n: nat)
    requires Ok(g, m) && 0 < g.ways && (forall e :: e in es ==> EventOk(g, e)) && n <= |es|
    ensures HappenAll(g, m, es) == HappenAll(g, HappenAll(g, m, es[..n]), es[n..])
    decreases n
  {
    if n > 0 {
      HappenConcat(g, Happen(g, m, es[0]), es[1..], n - 1);
      assert es[..n][1..] == es[1..][..n-1] && es[n..] == es[1..][n-1..];
    } else {
      assert es[..0] == [] && es[0..] == es;
    }
  }

  lemma {:induction false} StepsOfMembers(es: seq<Event>)
    ensures forall op :: op in StepsOf(es) <==> Step(op) in es
  {
    if es != [] {
      StepsOfMembers(es[1..]);
      assert es == [es[0]] + es[1..];
    }
  }

  /** Some step of the I-cache flush clears line `t` of the range out of slot `s`. */
  lemma FlushClears(g: Geometry, waybit: nat, k: nat, whole: bool, first: nat, last: nat, s: Slot, t: nat)
    returns (op: CacheOp)
    requires Built(g, waybit, k) && first <= last && Meets(first, last, t) && InCache(g, s)
    ensures op in FlushIOps(g, whole, first, last) && Clears(g, op, s, t)
  {
    if whole {
      SlotHasStep(g, waybit, k, s);
      op := IndexOps(IndexInvalidateI, g.ways * g.sets)[Number(g, s)];
    } else {
      op := LineOps(HitInvalidateI, first / LINE, Span(first, last))[t - first / LINE];
    }
  }

  /** Whatever is fetched in between, after the D-then-I flush every fetch from the range sees the last
      value stored there, which is what a load saw unless it saw an out-of-date clean copy. */
  lemma FlushCoherent(g: Geometry, waybit: nat, k: nat, m: Machine, es: seq<Event>,
                      wholeD: bool, wholeI: bool, first: nat, last: nat, t: nat)
    requires Built(g, waybit, k) && Ok(g, m) && first <= last < SPACE && Meets(first, last, t) && t < LINES
    requires forall e :: e in es ==> EventOk(g, e)
    requires StepsOf(es) == FlushDOps(g, wholeD, first, last) + FlushIOps(g, wholeI, first, last)
    ensures Fetch(HappenAll(g, m, es), t) == Settled(m, t)
    ensures Agrees(m, t) <==> Fetch(HappenAll(g, m, es), t) == View(m, t)
  {
    hide Ok, Apply, Exec, Happen, HappenAll, StepsOf, FlushDOps, FlushIOps, View, Settled, Fetch, HeldD;
    var n := SplitEvents(es, FlushDOps(g, wholeD, first, last), FlushIOps(g, wholeI, first, last));
    var es1, es2 := es[..n], es[n..];
    var m1 := HappenAll(g, m, es1);
    FlushDInMemory(g, waybit, k, m, es1, wholeD, first, last, t);
    FlushIFresh(g, waybit, k, m1, es2, wholeI, first, last, t);
    HappenConcat(g, m, es, n);
  }

  lemma OpsKinds(g: Geometry, whole: bool, first: nat, last: nat)
    requires first <= last
    ensures forall op :: op in FlushDOps(g, whole, first, last) ==> !OnI(op)
    ensures forall op :: op in FlushIOps(g, whole, first, last) ==> OnI(op)
  {
  }

  lemma FlushDInMemory(g: Geometry, waybit: nat, k: nat, m: Machine, es: seq<Event>,
                       whole: bool, first: nat, last: nat, t: nat)
    requires Built(g, waybit, k) && Ok(g, m) && first <= last < SPACE && Meets(first, last, t) && t < LINES
    requires (forall e :: e in es ==> EventOk(g, e)) && StepsOf(es) == FlushDOps(g, whole, first, last)
    ensures HappenAll(g, m, es).mem[t] == Settled(m, t)
  {
    hide Apply, Exec, Happen, HappenAll, StepsOf, FlushDOps, HeldD, View, Settled;
    StepsOfMembers(es);
    OpsKinds(g, whole, first, last);
    DataPhase(g, m, m, es);
    FlushDEffect(g, waybit, k, m, whole, first, last);
  }

  lemma SlotFresh(g: Geometry, waybit: nat, k: nat, m: Machine, es: seq<Event>,
                  whole: bool, first: nat, last: nat, t: nat, s: Slot)
    requires Built(g, waybit, k) && Ok(g, m) && first <= last < SPACE && Meets(first, last, t) && t < LINES
    requires (forall e :: e in es ==> EventOk(g, e)) && StepsOf(es) == FlushIOps(g, whole, first, last)
    ensures var m' := HappenAll(g, m, es); m'.mem == m.mem && NotStale(m', s, t)
  {
    hide Apply, Happen, HappenAll, StepsOf, FlushIOps, Clears, Shl;
    StepsOfMembers(es);
    OpsKinds(g, whole, first, last);
    if InCache(g, s) {
      var op := FlushClears(g, waybit, k, whole, first, last, s, t);
      assert Step(op) in es && Clears(g, Step(op).op, s, t);
    }
    StaysFresh(g, m, es, s, t);
  }

  lemma FreshFetch(m: Machine, t: nat)
    requires t < |m.mem| && forall s :: NotStale(m, s, t)
    ensures Fetch(m, t) == m.mem[t]
  {
    if HeldI(m, t) {
      var s :| s in m.i && m.i[s].tag == t && Fetch(m, t) == m.i[s].data;
      assert NotStale(m, s, t);
    }
  }

  lemma FlushIFresh(g: Geometry, waybit: nat, k: nat, m: Machine, es: seq<Event>,
                    whole: bool, first: nat, last: nat, t: nat)
    requires Built(g, waybit, k) && Ok(g, m) && first <= last < SPACE && Meets(first, last, t) && t < LINES
    requires (forall e :: e in es ==> EventOk(g, e)) && StepsOf(es) == FlushIOps(g, whole, first, last)
    ensures Fetch(HappenAll(g, m, es), t) == m.mem[t]
  {
    var m' := HappenAll(g, m, es);
    SlotFresh(g, waybit, k, m, es, whole, first, last, t, Slot(0, 0));
    forall s: Slot ensures NotStale(m', s, t) {
      SlotFresh(g, waybit, k, m, es, whole, first, last, t, s);
    }
    FreshFetch(m', t);
  }

  /** In the other order a fetch in between can leave an old instruction behind: line 0 of memory is
      out of date, its I-cache copy is dropped, refilled from memory, and only then written back. */
  lemma IThenDFails(g: Geometry) returns (m: Machine, es: seq<Event>)
    requires 0 < g.ways && 0 < g.sets
    ensures Ok(g, m) && (forall e :: e in es ==> EventOk(g, e))
    ensures StepsOf(es) == FlushIOps(g, false, 0, 0) + FlushDOps(g, false, 0, 0)
    ensures Fetch(HappenAll(g, m, es), 0) != View(m, 0) && Agrees(m, 0)
  {
    var stored: Line := seq(LINE, _ => 1);
    var zeros: Line := seq(LINE, _ => 0);
    var at := Slot(0, 0);
    var inv, wb := CacheOp(HitInvalidateI, 0), CacheOp(HitWritebackInvD, 0);
    m := Machine(map[at := DLine(0, true, stored)], map[], seq(LINES, _ => zeros));
    var m1 := m.(i := map[at := ILine(0, zeros)]);
    assert Refilled(g, m, m1) by {
      assert Happen(g, m, Step(inv)).i == map[];
    }
    es := [Step(inv), Refill(0, 0), Step(wb)];
    assert at in m1.i && m1.i[at].tag == 0 && at in m.d && m.d[at].tag == 0;
    assert HeldI(m1, 0) && HeldD(m, 0) && HeldDirty(m, 0);
    StaleFetch(g, m1, wb);
    ThreeEvents(g, m, es);
    assert stored[0] != zeros[0];
  }

  ghost predicate Refilled(g: Geometry, m: Machine, m1: Machine)
    requires Ok(g, m) && 0 < g.ways && 0 < g.sets
  {
    Happen(g, Happen(g, m, Step(CacheOp(HitInvalidateI, 0))), Refill(0, 0)) == m1
  }

  lemma StaleFetch(g: Geometry, m: Machine, wb: CacheOp)
    requires Ok(g, m) && 0 < g.ways && wb.kind == HitWritebackInvD && HeldI(m, 0)
    ensures Fetch(Apply(g, m, wb), 0) == Fetch(m, 0)
  {
    WritebackStep(g, m, wb);
  }

  lemma ThreeEvents(g: Geometry, m: Machine, es: seq<Event>)
    requires Ok(g, m) && 0 < g.ways && |es| == 3 && forall e :: e in es ==> EventOk(g, e)
    ensures HappenAll(g, m, es) == Happen(g, Happen(g, Happen(g, m, es[0]), es[1]), es[2])
    ensures es[0].Step? && es[1].Refill? && es[2].Step? ==> StepsOf(es) == [es[0].op] + [es[2].op]
  {
    hide Happen, Ok;
    var two, one := es[1..], es[2..];
    assert two[1..] == one && one == [es[2]] && one[1..] == [];
    var m2 := Happen(g, Happen(g, m, es[0]), es[1]);
    assert HappenAll(g, m2, one) == Happen(g, m2, es[2]);
    assert StepsOf(one) == if es[2].Step? then [es[2].op] else [];
    assert es[1].Refill? ==> StepsOf(two) == StepsOf(one);
  }
}
