/** What the two operations of the allocator add up to: the free list depends on nothing but the
    blocks in use and the end of the arena, units are conserved, and over any run a block keeps its contents. */
module AllocatorRuns {
  import opened FreeRing
  import opened Allocator

  // ---------- the free list is determined by what is in use ----------

  /** Two heaps over the same arena with the same blocks in use have the same free list: members, links
      and sizes. */
  lemma HistoryIndependent(h: Heap, g: Heap)
    requires Inv(h) && Inv(g) && h.allocp != NULL && g.allocp != NULL
    requires h.base == g.base && h.top == g.top && h.live == g.live
    ensures h.nodes == g.nodes && forall x :: x in h.nodes ==> h.m[x] == g.m[x]
  {
    Canonical(h.base, h.nodes, h.m, g.nodes, g.m);
  }

  /** A `malloc` that does not grow the arena, then `free` of its result, restores the free list. */
  lemma MallocThenFree(h: Heap, nu: nat, r: nat, h1: Heap, h2: Heap)
    requires Inv(h) && Inv(h1) && Inv(h2) && 0 < nu
    requires Located(h.nodes, h.m) && Fits(h, nu)
    requires MallocSpec(h, nu, r, h1) && FreeSpec(h1, r - 1, h2)
    ensures h2.nodes == h.nodes && (forall x :: x in h.nodes ==> h2.m[x] == h.m[x])
    ensures h2.live == h.live && h2.top == h.top
  {
    hide Ring, Covered, LiveOk, Partitioned, Preserved, NextFit;
    assert h2.live == h.live;
    HistoryIndependent(h, h2);
  }

  /** With nothing in use the whole arena is one free block behind the sentinel. */
  lemma AllFreed(h: Heap)
    requires Inv(h) && h.allocp != NULL && h.live == map[] && ARENA < h.top
    ensures h.nodes == {h.base, ARENA} && h.m[ARENA].size == h.top - ARENA
  {
    assert forall u :: !LiveUnit(h.live, u);
    forall x: nat | x != h.base ensures x in h.nodes <==> x == ARENA {
      NodeIffRunStart(h.base, h.nodes, h.m, x);
      assert Covered(h.nodes, h.m, x) <==> ARENA <= x < h.top;
      assert Covered(h.nodes, h.m, x - 1) <==> ARENA <= x - 1 < h.top;
    }
    assert h.base != ARENA && ARENA in h.nodes;
    var x := RunInOneBlock(h.base, h.nodes, h.m, ARENA, h.top - ARENA);
    NotCoveredAtEnd(h.base, h.nodes, h.m, x);
  }

  // ---------- one cycle, one wrap ----------

  /** The member reached from `x` after `k` links. */
  ghost function Walk(nodes: set<nat>, m: seq<Unit>, x: nat, k: nat): (y: nat)
    requires Located(nodes, m) && Linked(nodes, m) && x in nodes
    ensures y in nodes
    decreases k
  {
    if k == 0 then x else
      assert LinkAt(nodes, m, x);
      Walk(nodes, m, m[x].ptr, k - 1)
  }

  /** From any member every member is met within one turn. */
  lemma {:induction false} WalkReaches(nodes: set<nat>, m: seq<Unit>, x: nat, y: nat) returns (k: nat)
    requires Located(nodes, m) && Linked(nodes, m) && x in nodes && y in nodes
    ensures k < |Arc(nodes, x, y)| && Walk(nodes, m, x, k) == y
    decreases Arc(nodes, x, y)
  {
    if x == y {
      assert x in Arc(nodes, x, y);
      k := 0;
    } else {
      ArcStep(nodes, m, x, y);
      assert x in Arc(nodes, x, y);
      k := WalkReaches(nodes, m, m[x].ptr, y);
      k := k + 1;
    }
  }

  ghost predicate ReachesWithin(nodes: set<nat>, m: seq<Unit>, x: nat, y: nat, n: nat)
    requires Located(nodes, m) && Linked(nodes, m) && x in nodes
  {
    exists k :: 0 <= k < n && Walk(nodes, m, x, k) == y
  }

  ghost predicate Wraps(m: seq<Unit>, x: nat)
    requires x < |m|
  {
    m[x].ptr <= x
  }

  /** The free list is a single cycle with exactly one link that does not ascend. */
  lemma OneCycleOneWrap(h: Heap) returns (top: nat)
    requires Inv(h) && h.allocp != NULL
    ensures forall x, y :: x in h.nodes && y in h.nodes ==> ReachesWithin(h.nodes, h.m, x, y, |h.nodes|)
    ensures forall x :: x in h.nodes ==> (Wraps(h.m, x) <==> x == top)
    ensures top in h.nodes
  {
    forall x, y | x in h.nodes && y in h.nodes ensures ReachesWithin(h.nodes, h.m, x, y, |h.nodes|) {
      var k := WalkReaches(h.nodes, h.m, x, y);
      SubsetCount(Arc(h.nodes, x, y), h.nodes);
    }
    top := Highest(h.nodes);
    forall y | y in h.nodes ensures Wraps(h.m, y) <==> y == top {
      assert LinkAt(h.nodes, h.m, y);
    }
  }

  lemma {:induction false} SubsetCount<T>(a: set<T>, b: set<T>)
    requires a <= b
    ensures |a| <= |b|
  {
    if x :| x in a {
      SubsetCount(a - {x}, b - {x});
    }
  }

  // ---------- units are conserved ----------

  ghost function Interval(lo: int, hi: int): (s: set<int>)
    ensures forall u :: u in s <==> lo <= u < hi
    ensures lo <= hi ==> |s| == hi - lo
    decreases hi - lo
  {
    if lo < hi then Interval(lo, hi - 1) + {hi - 1} else {}
  }

  /** Sum of the sizes of a family of blocks. */
  ghost function Total(blocks: map<nat, nat>): nat
  {
    if blocks == map[] then 0 else
      var p :| p in blocks;
      blocks[p] + Total(blocks - {p})
  }

  ghost predicate Apart(blocks: map<nat, nat>) {
    forall p, q :: p in blocks && q in blocks && p < q ==> p + blocks[p] <= q
  }

  ghost function UnitsIn(blocks: map<nat, nat>, lo: int, hi: int): set<int> {
    set u | lo <= u < hi && LiveUnit(blocks, u)
  }

  lemma AddBlock(blocks: map<nat, nat>, p: nat, lo: int, hi: int)
    requires Apart(blocks) && p in blocks
    requires blocks[p] > 0 ==> lo <= p && p + blocks[p] <= hi
    ensures |UnitsIn(blocks, lo, hi)| == |UnitsIn(blocks - {p}, lo, hi)| + blocks[p]
  {
    var a, b := UnitsIn(blocks - {p}, lo, hi), Interval(p, p + blocks[p]);
    LiveMinusOf(blocks, p);
    assert a !! b && UnitsIn(blocks, lo, hi) == a + b;
  }

  lemma LiveMinusOf(blocks: map<nat, nat>, p: nat)
    requires Apart(blocks) && p in blocks
    ensures forall u :: LiveUnit(blocks - {p}, u) <==> LiveUnit(blocks, u) && !(p <= u < p + blocks[p])
    ensures forall u :: p <= u < p + blocks[p] ==> LiveUnit(blocks, u)
  {
    forall u | LiveUnit(blocks, u) && !(p <= u < p + blocks[p]) ensures LiveUnit(blocks - {p}, u) {
      var r :| r in blocks && r <= u < r + blocks[r];
      assert r in blocks - {p};
    }
  }

  lemma {:induction false} TotalIsCount(blocks: map<nat, nat>, lo: int, hi: int)
    requires Apart(blocks)
    requires forall p :: p in blocks && blocks[p] > 0 ==> lo <= p && p + blocks[p] <= hi
    ensures Total(blocks) == |UnitsIn(blocks, lo, hi)|
    decreases |blocks|
  {
    if blocks == map[] {
      assert UnitsIn(blocks, lo, hi) == {};
    } else {
      var p :| p in blocks && Total(blocks) == blocks[p] + Total(blocks - {p});
      AddBlock(blocks, p, lo, hi);
      TotalIsCount(blocks - {p}, lo, hi);
    }
  }

  /** The free list as a family of blocks. */
  ghost function FreeBlocks(h: Heap): map<nat, nat>
    requires Located(h.nodes, h.m)
  {
    map x | x in h.nodes :: h.m[x].size
  }

  lemma FreeUnits(h: Heap)
    requires Inv(h)
    ensures Located(h.nodes, h.m)
    ensures forall u :: LiveUnit(FreeBlocks(h), u) <==> Covered(h.nodes, h.m, u)
  {
    var free := FreeBlocks(h);
    forall u ensures LiveUnit(free, u) <==> Covered(h.nodes, h.m, u) {
      if LiveUnit(free, u) {
        var x :| x in free && x <= u < x + free[x];
        assert InBlock(h.m, x, u);
      }
      if Covered(h.nodes, h.m, u) {
        var x :| x in h.nodes && InBlock(h.m, x, u);
        assert x in free;
      }
    }
  }

  lemma FreeCount(h: Heap)
    requires Inv(h)
    ensures Located(h.nodes, h.m)
    ensures Total(FreeBlocks(h)) == |UnitsIn(FreeBlocks(h), ARENA, h.top)|
  {
    hide Covered, LiveUnit, Partitioned;
    TotalIsCount(FreeBlocks(h), ARENA, h.top);
  }

  lemma ComplementCount(free: map<nat, nat>, live: map<nat, nat>, lo: int, hi: int)
    requires lo <= hi && forall u :: lo <= u < hi ==> (LiveUnit(free, u) <==> !LiveUnit(live, u))
    ensures |UnitsIn(free, lo, hi)| + |UnitsIn(live, lo, hi)| == hi - lo
  {
    var a, b := UnitsIn(free, lo, hi), UnitsIn(live, lo, hi);
    assert a !! b && a + b == Interval(lo, hi);
  }

  /** Free sizes plus live sizes are the units obtained from `sbrk`, a multiple of 128. */
  lemma UnitsConserved(h: Heap)
    requires Inv(h)
    ensures Located(h.nodes, h.m)
    ensures Total(FreeBlocks(h)) + Total(h.live) == h.top - ARENA
    ensures (h.top - ARENA) % NALLOC == 0
  {
    hide Covered, LiveUnit, FreeBlocks, Ring;
    FreeCount(h);
    FreeUnits(h);
    TotalIsCount(h.live, ARENA, h.top);
    ComplementCount(FreeBlocks(h), h.live, ARENA, h.top);
  }

  // ---------- what the caller of malloc gets ----------

  /** The payload is large enough, and no unit of it belongs to another block or to the free list. */
  lemma PayloadRoom(h: Heap, nbytes: nat, r: nat, h': Heap)
    requires Inv(h') && r != NULL && MallocSpec(h, Nunits(nbytes), r, h')
    ensures var p, n := r - 1, Nunits(nbytes);
      && p in h'.live && h'.live[p] == n && ARENA <= p && p + n <= h'.top
      && nbytes <= 8 * (n - 1) < nbytes + 8
      && Located(h'.nodes, h'.m) && forall u :: p <= u < p + n ==>
        !Covered(h'.nodes, h'.m, u) && !LiveUnit(h'.live - {p}, u)
  {
  }

  // ---------- runs ----------

  /** What a client does: `malloc`, `free` of a block in use, or a store into the payload of one. The
      first two are the transitions the code makes; nothing is said of the heap they lead to. */
  datatype Op = Malloc(nbytes: nat, r: nat) | Free(ap: nat) | Store(p: nat, u: nat, value: Unit)

  ghost predicate Step(h: Heap, op: Op, h': Heap) {
    match op
    case Malloc(nbytes, r) => MallocStep(h, Nunits(nbytes), r, h')
    case Free(ap) => 0 < ap && FreeStep(h, ap - 1, h')
    case Store(p, u, value) =>
      p in h.live && p < u < p + h.live[p] && u < |h.m| && h' == h.(m := h.m[u := value])
  }

  ghost predicate Run(hs: seq<Heap>, ops: seq<Op>) {
    && |hs| == |ops| + 1
    && Inv(hs[0])
    && forall i :: 0 <= i < |ops| ==> Step(hs[i], ops[i], hs[i+1])
  }

  lemma StoreKeepsInv(h: Heap, p: nat, u: nat, h': Heap)
    requires Inv(h) && p in h.live && p < u < p + h.live[p] && u < |h.m|
    requires |h'.m| == |h.m| && h'.m == h.m[u := h'.m[u]] && h' == h.(m := h'.m)
    ensures Inv(h')
  {
    assert LiveUnit(h.live, u);
    forall x | x in h.nodes ensures x != u {
      MemberNotLive(h, x);
    }
    if h.allocp != NULL {
      SameHeaders(h.base, h.nodes, h.m, h'.m);
    }
  }

  lemma StepKeepsInv(h: Heap, op: Op, h': Heap)
    requires Inv(h) && Step(h, op, h')
    ensures Inv(h')
  {
    hide Inv, MallocStep, FreeStep;
    match op
    case Malloc(nbytes, r) => MallocStepInv(h, Nunits(nbytes), r, h');
    case Free(ap) => FreeStepInv(h, ap - 1, h');
    case Store(p, u, value) => StoreKeepsInv(h, p, u, h');
  }

  lemma {:induction false} RunKeepsInv(hs: seq<Heap>, ops: seq<Op>, i: nat)
    requires Run(hs, ops) && i < |hs|
    ensures Inv(hs[i])
  {
    hide Inv, Step;
    if i > 0 {
      RunKeepsInv(hs, ops, i - 1);
      StepKeepsInv(hs[i-1], ops[i-1], hs[i]);
    }
  }

  /** Over any run, a block that is neither freed nor stored into keeps its size and every unit. */
  lemma {:induction false} BlockUndisturbed(hs: seq<Heap>, ops: seq<Op>, p: nat)
    requires Run(hs, ops) && p in hs[0].live
    requires forall i :: 0 <= i < |ops| ==> ops[i] != Free(p + 1) && !(ops[i].Store? && ops[i].p == p)
    ensures p in hs[|ops|].live && hs[|ops|].live[p] == hs[0].live[p]
    ensures p + hs[0].live[p] <= |hs[|ops|].m| == |hs[0].m|
    ensures forall u :: p <= u < p + hs[0].live[p] ==> hs[|ops|].m[u] == hs[0].m[u]
    decreases |ops|
  {
    hide Inv, Step;
    RunKeepsInv(hs, ops, 0);
    BlockInside(hs[0], p);
    if |ops| > 0 {
      var h, op, h' := hs[0], ops[0], hs[1];
      assert Step(h, op, h');
      RunKeepsInv(hs, ops, 1);
      StepUndisturbed(h, op, h', p);
      assert Run(hs[1..], ops[1..]);
      BlockUndisturbed(hs[1..], ops[1..], p);
    }
  }

  lemma StepUndisturbed(h: Heap, op: Op, h': Heap, p: nat)
    requires Inv(h) && Step(h, op, h') && p in h.live
    requires op != Free(p + 1) && !(op.Store? && op.p == p)
    ensures p in h'.live && h'.live[p] == h.live[p] && |h'.m| == |h.m|
    ensures forall u :: p <= u < p + h.live[p] ==> h'.m[u] == h.m[u]
  {
    hide Inv, MallocStep, FreeStep, Preserved;
    BlockInside(h, p);
    match op
    case Malloc(nbytes, r) =>
      MallocStepInv(h, Nunits(nbytes), r, h');
      PreservedBlock(h, h.live, h', p);
    case Free(ap) =>
      FreeStepInv(h, ap - 1, h');
      PreservedBlock(h, h.live - {ap - 1}, h', p);
    case Store(q, u, value) => BlocksApart(h, p, q);
  }

  lemma BlockInside(h: Heap, p: nat)
    requires Inv(h) && p in h.live
    ensures p + h.live[p] <= |h.m|
  {
  }

  lemma BlocksApart(h: Heap, p: nat, q: nat)
    requires Inv(h) && p in h.live && q in h.live && p != q
    ensures p + h.live[p] <= q || q + h.live[q] <= p
  {
  }

  lemma PreservedBlock(h: Heap, live: map<nat, nat>, h': Heap, p: nat)
    requires Preserved(h, live, h') && p in live && p + live[p] <= |h.m|
    ensures |h'.m| == |h.m| && forall u :: p <= u < p + live[p] ==> h'.m[u] == h.m[u]
  {
    assert forall u :: p <= u < p + live[p] ==> LiveUnit(live, u);
  }
}
