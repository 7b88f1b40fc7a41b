/** The storage allocator of malloc.c: `malloc`, `free`, `morecore` and `sbrk` over one array
    of 8-byte units. Pointers are unit indices (`ap` points at the unit after the header);
    `membase` is a byte address. */
module Allocator {
  import opened FreeRing

  const NALLOC: nat := 128
  const HEADER_BYTES: nat := 8
  const WORD: nat := 0x1_0000_0000
  /** Unit index of the first address `sbrk` hands out. */
  const ARENA: nat := 0x8001_0000 / HEADER_BYTES
  /** Number of units in the 32-bit address space. */
  const LIMIT: nat := WORD / HEADER_BYTES
  const NULL: nat := 0

  /** A snapshot of the allocator: `top` is the first unit above the arena, `live` maps the
      header of every block in use to its size in units. */
  datatype Heap = Heap(base: nat, allocp: nat, top: nat, nodes: set<nat>, live: map<nat, nat>, m: seq<Unit>)

  /** Units asked for: payload rounded up, plus the header. */
  function Nunits(nbytes: nat): nat {
    (nbytes + HEADER_BYTES - 1) / HEADER_BYTES + 1
  }

  /** Units obtained from `sbrk`: `nu` rounded up to a multiple of NALLOC. */
  function Rounded(nu: nat): (r: nat)
    ensures r % 128 == 0 && nu <= r < nu + 128
  {
    NALLOC * ((nu + NALLOC - 1) / NALLOC)
  }

  ghost predicate LiveUnit(live: map<nat, nat>, u: int) {
    exists p :: p in live && p <= u < p + live[p]
  }

  ghost predicate LiveOk(h: Heap) {
    && (forall p :: p in h.live ==>
      ARENA <= p < |h.m| && 1 <= h.live[p] == h.m[p].size && p + h.live[p] <= h.top)
    && (forall p, q :: p in h.live && q in h.live && p < q ==> p + h.live[p] <= q)
  }

  ghost predicate ListOk(h: Heap) {
    && Located(h.nodes, h.m)
    && (h.allocp == NULL ==> h.nodes == {} && h.live == map[] && h.top == ARENA)
    && (h.allocp != NULL ==> Ring(h.base, h.nodes, h.m) && h.allocp in h.nodes)
    && (forall x :: x in h.nodes && x != h.base ==> ARENA <= x && x + h.m[x].size <= h.top)
  }

  /** Every unit of the arena is in exactly one block, and no other unit is in a block. */
  ghost predicate Partitioned(h: Heap)
    requires Located(h.nodes, h.m)
  {
    forall u :: Covered(h.nodes, h.m, u) <==> ARENA <= u < h.top && !LiveUnit(h.live, u)
  }

  ghost predicate Inv(h: Heap) {
    && 0 < h.base < |h.m| == LIMIT
    && ARENA <= h.top <= LIMIT && (h.top - ARENA) % NALLOC == 0
    && (h.base < ARENA || h.top < h.base)
    && ListOk(h) && LiveOk(h) && Partitioned(h)
  }

  /** Some free block holds `nu` units. */
  ghost predicate Fits(h: Heap, nu: nat)
    requires Located(h.nodes, h.m)
  {
    exists x :: x in h.nodes && h.m[x].size >= nu
  }

  /** Going around the ring from `p` up to and including `a`, member `y` is met. */
  predicate InArc(p: nat, y: nat, a: nat) {
    if p <= a then p <= y <= a else p <= y || y <= a
  }

  /** `x` is the first member after the roving pointer that holds `nu` units. */
  ghost predicate NextFit(h: Heap, nu: nat, x: nat)
    requires Located(h.nodes, h.m) && h.allocp in h.nodes
  {
    && x in h.nodes && h.m[x].size >= nu
    && forall y :: y in h.nodes && y != x && InArc(h.m[h.allocp].ptr, y, x) ==> h.m[y].size < nu
  }


  // ---------- the ring searches ----------

  ghost function Arc(nodes: set<nat>, p: nat, a: nat): set<nat> {
    set y | y in nodes && InArc(p, y, a)
  }

  /** One step along the links leaves exactly one member behind, until `a` is reached. */
  lemma ArcStep(nodes: set<nat>, m: seq<Unit>, p: nat, a: nat)
    requires Located(nodes, m) && Linked(nodes, m) && p in nodes && a in nodes && p != a
    ensures m[p].ptr in nodes
    ensures Arc(nodes, m[p].ptr, a) == Arc(nodes, p, a) - {p} < Arc(nodes, p, a)
  {
    assert LinkAt(nodes, m, p);
    assert p in Arc(nodes, p, a);
  }

  /** Starting behind `a`, the whole ring lies ahead. */
  lemma ArcAll(nodes: set<nat>, m: seq<Unit>, a: nat)
    requires Located(nodes, m) && Linked(nodes, m) && a in nodes
    ensures m[a].ptr in nodes
    ensures Arc(nodes, m[a].ptr, a) == nodes
  {
    assert LinkAt(nodes, m, a);
  }

  lemma {:induction false} Highest(s: set<nat>) returns (x: nat)
    requires s != {}
    ensures x in s && forall y :: y in s ==> y <= x
  {
    x :| x in s;
    if s != {x} {
      assert s - {x} != {};
      var y := Highest(s - {x});
      assert s == (s - {x}) + {x};
      x := if x < y then y else x;
    }
  }

  /** Every address off the list is bracketed by one member and its successor. */
  lemma BracketExists(nodes: set<nat>, m: seq<Unit>, p: nat) returns (q: nat)
    requires Located(nodes, m) && Linked(nodes, m) && nodes != {} && p !in nodes
    ensures q in nodes && Brackets(q, m[q].ptr, p)
  {
    var below := set x | x in nodes && x < p;
    q := Highest(if below != {} then below else nodes);
    assert LinkAt(nodes, m, q);
    assert forall x :: x in nodes && x < p ==> x in below;
  }

  /** ... and by only one. */
  lemma BracketUnique(nodes: set<nat>, m: seq<Unit>, p: nat, q: nat, r: nat)
    requires Located(nodes, m) && Linked(nodes, m) && p !in nodes
    requires q in nodes && r in nodes && Brackets(q, m[q].ptr, p) && Brackets(r, m[r].ptr, p)
    ensures q == r
  {
    assert LinkAt(nodes, m, q) && LinkAt(nodes, m, r);
  }

  // ---------- what the operations do to a heap ----------

  /** `free` gives exactly block `p` back, leaves every other live block alone and puts the roving
      pointer on the member that brackets `p`. */
  ghost predicate FreeSpec(h: Heap, p: nat, h': Heap) {
    && h'.base == h.base && h'.top == h.top && h'.live == h.live - {p} && h'.allocp != NULL
    && Located(h.nodes, h.m) && h'.allocp in h.nodes && Brackets(h'.allocp, h.m[h'.allocp].ptr, p)
    && Preserved(h, h.live - {p}, h')
  }

  /** The header `malloc` hands out for a request of `nu` units: the tail of the first fitting member,
      or, when none fits, of the new memory; the roving pointer is left on the predecessor. */
  ghost predicate MallocPlace(h: Heap, nu: nat, p: nat, h': Heap)
    requires Located(h.nodes, h.m)
  {
    if Fits(h, nu) then
      && h'.top == h.top && h.allocp in h.nodes && h'.allocp in h.nodes
      && NextFit(h, nu, h.m[h'.allocp].ptr)
      && p + nu == h.m[h'.allocp].ptr + h.m[h.m[h'.allocp].ptr].size
    else
      h'.top == h.top + Rounded(nu) && p + nu == h'.top
  }

  /** `malloc` adds one live block of exactly `nu` units and leaves every live block alone;
      it returns NULL only when `sbrk` fails, and then changes nothing. */
  ghost predicate MallocSpec(h: Heap, nu: nat, r: nat, h': Heap) {
    if r == NULL then
      Located(h.nodes, h.m) && !Fits(h, nu) && h.top == LIMIT && h' == h
    else
      && h'.base == h.base && h'.allocp != NULL
      && r - 1 !in h.live && h'.live == h.live[r - 1 := nu]
      && Preserved(h, h.live, h')
      && Located(h.nodes, h.m) && MallocPlace(h, nu, r - 1, h')
  }

  /** The units of the blocks in `live`, headers and payload, are untouched. */
  ghost predicate Preserved(h: Heap, live: map<nat, nat>, h': Heap) {
    && |h'.m| == |h.m|
    && forall u :: 0 <= u < |h.m| && LiveUnit(live, u) ==> h'.m[u] == h.m[u]
  }

  lemma LiveIsClear(h: Heap, p: nat)
    requires Inv(h) && p in h.live
    ensures h.allocp != NULL && Clear(h.base, h.nodes, h.m, p)
  {
    assert LiveUnit(h.live, p);
    forall x | x in h.nodes && x != h.base
      ensures x != p && (x + h.m[x].size <= p || p + h.m[p].size <= x)
    {
      assert InBlock(h.m, x, x);
      assert Covered(h.nodes, h.m, x) && !Covered(h.nodes, h.m, p);
      assert !InBlock(h.m, x, p);
    }
  }

  lemma EndsInside(h: Heap, x: nat)
    requires Located(h.nodes, h.m) && x in h.nodes && h.m[x].size > 0 && ARENA <= h.top
    requires forall u :: Covered(h.nodes, h.m, u) ==> ARENA <= u < h.top
    ensures ARENA <= x && x + h.m[x].size <= h.top
  {
    assert InBlock(h.m, x, x) && InBlock(h.m, x, x + h.m[x].size - 1);
    assert Covered(h.nodes, h.m, x) && Covered(h.nodes, h.m, x + h.m[x].size - 1);
  }

  lemma MemberNotLive(h: Heap, x: nat)
    requires Inv(h) && x in h.nodes
    ensures !LiveUnit(h.live, x)
  {
    if x != h.base {
      assert InBlock(h.m, x, x);
    }
  }

  lemma LiveMinus(h: Heap, p: nat)
    requires LiveOk(h) && p in h.live
    ensures forall u :: LiveUnit(h.live - {p}, u) <==> LiveUnit(h.live, u) && !(p <= u < p + h.live[p])
  {
    forall u | LiveUnit(h.live, u) && !(p <= u < p + h.live[p]) ensures LiveUnit(h.live - {p}, u) {
      var r :| r in h.live && r <= u < r + h.live[r];
      assert r in h.live - {p};
    }
  }

  /** `h'` is `h` with block `p` freed behind member `q`. */
  ghost predicate FreedBehind(h: Heap, p: nat, q: nat, h': Heap) {
    && Located(h.nodes, h.m) && p in h.live && p < |h.m|
    && q in h.nodes && LinkAt(h.nodes, h.m, q) && Brackets(q, h.m[q].ptr, p)
    && Joined(h.nodes, h.m, q, p, h'.m)
    && h'.nodes == Inserted(h.nodes, h.m, q, h.m[q].ptr, p)
    && h'.live == h.live - {p} && h'.allocp == q && h'.base == h.base && h'.top == h.top
  }

  lemma FreeListOk(h: Heap, p: nat, q: nat, h': Heap)
    requires Inv(h) && p in h.live && FreedBehind(h, p, q, h')
    ensures ListOk(h')
    ensures forall u :: Covered(h'.nodes, h'.m, u) <==> Covered(h.nodes, h.m, u) || p <= u < p + h.m[p].size
  {
    LiveIsClear(h, p);
    InsertSpaced(h.base, h.nodes, h.m, q, p, h'.m);
    InsertLinked(h.base, h.nodes, h.m, q, p, h'.m);
    InsertCovers(h.base, h.nodes, h.m, q, p, h'.m);
    forall x | x in h'.nodes && x != h'.base ensures ARENA <= x && x + h'.m[x].size <= h'.top {
      EndsInside(h', x);
    }
  }

  lemma FreePreserves(h: Heap, p: nat, q: nat, h': Heap)
    requires Inv(h) && p in h.live && FreedBehind(h, p, q, h')
    ensures LiveOk(h') && Preserved(h, h.live - {p}, h')
  {
    hide Ring, Covered, Partitioned;
    MemberNotLive(h, q);
    LiveMinus(h, p);
    forall r | r in h'.live ensures r != p && r != q {
      assert LiveUnit(h.live, r);
    }
  }

  lemma FreeKeepsInv(h: Heap, p: nat, q: nat, h': Heap)
    requires Inv(h) && FreedBehind(h, p, q, h')
    ensures Inv(h') && FreeSpec(h, p, h')
  {
    FreeListOk(h, p, q, h');
    FreePreserves(h, p, q, h');
    LiveMinus(h, p);
  }

  /** `h'` is `h` with the last `nu` units of member `x`, whose predecessor is `q`, handed out. */
  ghost predicate TakenFrom(h: Heap, nu: nat, q: nat, x: nat, h': Heap) {
    && Located(h.nodes, h.m) && q in h.nodes && x in h.nodes && h.m[q].ptr == x
    && 0 < nu <= h.m[x].size && x + h.m[x].size <= |h.m|
    && var p := x + h.m[x].size - nu;
      && h'.base == h.base && h'.top == h.top && h'.live == h.live[p := nu] && h'.allocp == q
      && if p == x then
           h'.nodes == h.nodes - {x} && h'.m == h.m[q := h.m[q].(ptr := h.m[x].ptr)]
         else
           h'.nodes == h.nodes
           && h'.m == h.m[x := h.m[x].(size := h.m[x].size - nu)][p := h.m[p].(size := nu)]
  }

  lemma TakeListOk(h: Heap, nu: nat, q: nat, x: nat, h': Heap)
    requires Inv(h) && TakenFrom(h, nu, q, x, h')
    ensures ListOk(h')
    ensures var p := x + h.m[x].size - nu;
      forall u :: Covered(h'.nodes, h'.m, u) <==> Covered(h.nodes, h.m, u) && !(p <= u < p + nu)
  {
    assert LinkAt(h.nodes, h.m, q);
    if nu == h.m[x].size {
      UnlinkRing(h.base, h.nodes, h.m, q, x, h'.m);
      UnlinkCovers(h.base, h.nodes, h.m, x, h'.m);
    } else {
      TailCutRing(h.base, h.nodes, h.m, x, nu, h'.m);
      TailCutCovers(h.base, h.nodes, h.m, x, nu, h'.m);
    }
  }

  lemma MemberApart(h: Heap, x: nat)
    requires Inv(h) && x in h.nodes && h.m[x].size > 0
    ensures ARENA <= x && x + h.m[x].size <= h.top
    ensures forall r :: r in h.live ==> r + h.live[r] <= x || x + h.m[x].size <= r
    ensures forall u :: x <= u < x + h.m[x].size ==> !LiveUnit(h.live, u)
  {
    forall u | x <= u < x + h.m[x].size ensures !LiveUnit(h.live, u) {
      assert InBlock(h.m, x, u);
    }
    forall r | r in h.live ensures r + h.live[r] <= x || x + h.m[x].size <= r {
      if r < x { assert !LiveUnit(h.live, x); } else { assert LiveUnit(h.live, r); }
    }
  }

  lemma TakePreserves(h: Heap, nu: nat, q: nat, x: nat, h': Heap)
    requires Inv(h) && TakenFrom(h, nu, q, x, h')
    ensures Preserved(h, h.live, h')
  {
    hide Ring, Covered, Partitioned, LiveOk;
    MemberNotLive(h, q);
    MemberApart(h, x);
  }

  lemma LivePlus(live: map<nat, nat>, p: nat, nu: nat)
    requires p !in live
    ensures forall u :: LiveUnit(live[p := nu], u) <==> LiveUnit(live, u) || p <= u < p + nu
  {
    var live' := live[p := nu];
    forall u | LiveUnit(live, u) || p <= u < p + nu ensures LiveUnit(live', u) {
      if p <= u < p + nu {
        assert p in live';
      } else {
        var r :| r in live && r <= u < r + live[r];
        assert r in live';
      }
    }
  }

  /** Block `p` of `nu` units, apart from every live block, joins the live blocks. */
  ghost predicate Handed(h: Heap, p: nat, nu: nat, h': Heap) {
    && p !in h.live && h'.live == h.live[p := nu] && Preserved(h, h.live, h')
    && ARENA <= p && 0 < nu && h.top <= h'.top && p + nu <= h'.top <= |h.m|
    && h'.m[p].size == nu
    && forall r :: r in h.live ==> r + h.live[r] <= p || p + nu <= r
  }

  lemma HandedLiveOk(h: Heap, p: nat, nu: nat, h': Heap)
    requires LiveOk(h) && Handed(h, p, nu, h')
    ensures LiveOk(h')
  {
    forall r | r in h.live ensures h'.m[r] == h.m[r] {
      assert LiveUnit(h.live, r);
    }
  }

  lemma HandedPartitioned(h: Heap, p: nat, nu: nat, h': Heap)
    requires Located(h.nodes, h.m) && Partitioned(h) && Handed(h, p, nu, h') && Located(h'.nodes, h'.m)
    requires ARENA <= h.top && forall r :: r in h.live ==> r + h.live[r] <= h.top
    requires forall u :: Covered(h'.nodes, h'.m, u) <==>
      (Covered(h.nodes, h.m, u) || h.top <= u < h'.top) && !(p <= u < p + nu)
    ensures Partitioned(h')
  {
    LivePlus(h.live, p, nu);
    forall u ensures Covered(h'.nodes, h'.m, u) <==> ARENA <= u < h'.top && !LiveUnit(h'.live, u) {
      assert Covered(h.nodes, h.m, u) <==> ARENA <= u < h.top && !LiveUnit(h.live, u);
      if LiveUnit(h.live, u) {
        var r :| r in h.live && r <= u < r + h.live[r];
        assert u < h.top;
      }
    }
  }

  lemma TakeHanded(h: Heap, nu: nat, q: nat, x: nat, h': Heap)
    requires Inv(h) && TakenFrom(h, nu, q, x, h')
    ensures Handed(h, x + h.m[x].size - nu, nu, h')
  {
    hide Ring, Covered, Partitioned, LiveUnit;
    TakePreserves(h, nu, q, x, h');
    MemberApart(h, x);
  }

  lemma TakePartitioned(h: Heap, nu: nat, q: nat, x: nat, h': Heap)
    requires Inv(h) && TakenFrom(h, nu, q, x, h')
    ensures Located(h'.nodes, h'.m) && Partitioned(h')
  {
    hide Ring, Covered, LiveUnit;
    TakeHanded(h, nu, q, x, h');
    TakeListOk(h, nu, q, x, h');
    HandedPartitioned(h, x + h.m[x].size - nu, nu, h');
  }

  lemma TakeKeepsInv(h: Heap, nu: nat, q: nat, x: nat, h': Heap)
    requires Inv(h) && TakenFrom(h, nu, q, x, h')
    ensures Inv(h') && Handed(h, x + h.m[x].size - nu, nu, h')
  {
    hide Ring, Covered, LiveOk, Partitioned, Preserved;
    TakeHanded(h, nu, q, x, h');
    TakePartitioned(h, nu, q, x, h');
    HandedLiveOk(h, x + h.m[x].size - nu, nu, h');
    TakeListOk(h, nu, q, x, h');
  }

  /** `h'` is `h` with `rnu` units of new memory above the arena, as one more live block. */
  ghost predicate GrownBy(h: Heap, rnu: nat, h': Heap) {
    && 0 < rnu && rnu % NALLOC == 0
    && h.top + rnu <= |h.m| == LIMIT && (h.base < ARENA || h.top + rnu < h.base)
    && h' == h.(top := h.top + rnu, live := h.live[h.top := rnu],
                m := h.m[h.top := h.m[h.top].(size := rnu)])
  }

  lemma GrowHanded(h: Heap, rnu: nat, h': Heap)
    requires Inv(h) && GrownBy(h, rnu, h')
    ensures Handed(h, h.top, rnu, h')
  {
  }

  lemma GrowKeepsInv(h: Heap, rnu: nat, h': Heap)
    requires Inv(h) && h.allocp != NULL && GrownBy(h, rnu, h')
    ensures Inv(h') && Preserved(h, h.live, h') && h.top !in h.live
  {
    hide Covered, LiveUnit, Ring, LiveOk, Partitioned, Preserved, Handed, ListOk, GrownBy;
    GrowFrame(h, rnu, h');
    GrowHanded(h, rnu, h');
    HandedPreserves(h, h.top, rnu, h');
    GrowListOk(h, rnu, h');
    ListIsLocated(h);
    ListIsLocated(h');
    LiveBelowTop(h);
    CoveredBelowTop(h);
    HandedLiveOk(h, h.top, rnu, h');
    HandedPartitioned(h, h.top, rnu, h');
  }

  lemma GrowFrame(h: Heap, rnu: nat, h': Heap)
    requires Inv(h) && GrownBy(h, rnu, h')
    ensures h'.base == h.base && h'.top == h.top + rnu <= LIMIT == |h'.m| && (h'.top - ARENA) % NALLOC == 0
    ensures h'.nodes == h.nodes && (h.base < ARENA || h'.top < h.base)
  {
    hide LiveOk, ListOk, Partitioned;
  }

  lemma HandedPreserves(h: Heap, p: nat, nu: nat, h': Heap)
    requires Handed(h, p, nu, h')
    ensures Preserved(h, h.live, h')
  {
    hide Preserved;
  }

  lemma ListIsLocated(h: Heap)
    requires ListOk(h)
    ensures Located(h.nodes, h.m)
  {
  }

  lemma LiveBelowTop(h: Heap)
    requires LiveOk(h)
    ensures h.top !in h.live && forall r :: r in h.live ==> r + h.live[r] <= h.top
  {
  }

  lemma CoveredBelowTop(h: Heap)
    requires Located(h.nodes, h.m) && Partitioned(h)
    ensures forall u :: Covered(h.nodes, h.m, u) ==> u < h.top
  {
    hide Covered, LiveUnit;
  }

  lemma GrowListOk(h: Heap, rnu: nat, h': Heap)
    requires Inv(h) && h.allocp != NULL && GrownBy(h, rnu, h')
    ensures ListOk(h')
    ensures forall u :: Covered(h'.nodes, h'.m, u) <==> Covered(h.nodes, h.m, u)
  {
    hide Covered, LiveUnit, LiveOk, Partitioned;
    SameHeaders(h.base, h.nodes, h.m, h'.m);
  }

  /** When no block fitted before, a block that fits afterwards reaches up to the new end of the arena. */
  lemma OnlyNewFits(h: Heap, nu: nat, h': Heap, x: nat)
    requires Inv(h) && !Fits(h, nu) && 0 < nu && h.top < h'.top
    requires Inv(h') && h'.base == h.base && h'.live == h.live && x in h'.nodes && h'.m[x].size >= nu
    ensures x + h'.m[x].size == h'.top
  {
    MemberApart(h', x);
    if x + h'.m[x].size <= h.top {
      forall u | x <= u < x + h'.m[x].size ensures Covered(h.nodes, h.m, u) {
        assert InBlock(h'.m, x, u);
        assert Covered(h'.nodes, h'.m, u);
      }
      var y := RunInOneBlock(h.base, h.nodes, h.m, x, h'.m[x].size);
    } else {
      NotCoveredAtEnd(h'.base, h'.nodes, h'.m, x);
      AboveTopFree(h);
    }
  }

  lemma AboveTopFree(h: Heap)
    requires Inv(h)
    ensures forall u :: h.top <= u ==> !LiveUnit(h.live, u)
  {
  }

  /** Freeing the new memory leaves a block that holds it whole. */
  lemma NewMemoryFits(h: Heap, nu: nat, lo: nat)
    requires Inv(h) && h.allocp != NULL && 0 < nu && ARENA <= lo && lo + nu <= h.top
    requires forall u :: lo <= u < lo + nu ==> !LiveUnit(h.live, u)
    ensures Fits(h, nu)
  {
    forall u | lo <= u < lo + nu ensures Covered(h.nodes, h.m, u) {
      assert !LiveUnit(h.live, u);
    }
    var x := RunInOneBlock(h.base, h.nodes, h.m, lo, nu);
  }

  /** Unit and byte addresses of the end of the arena. */
  lemma BreakAddress(h: Heap, nu: nat)
    requires Inv(h)
    ensures Located(h.nodes, h.m) && |h.m| == LIMIT && 0 < h.base < LIMIT && Rounded(nu) % NALLOC == 0
    ensures 0 < nu ==> 0 < Rounded(nu)
    ensures HEADER_BYTES * h.top % WORD == NULL <==> h.top == LIMIT
    ensures h.top < LIMIT ==> HEADER_BYTES * h.top % WORD == HEADER_BYTES * h.top
  {
  }

  /** `morecore` adds a chunk of new memory to the free list and touches no live block; after it
      the request fits, and only in a block that ends at the new end of the arena. */
  ghost predicate MorecoreSpec(h: Heap, nu: nat, h': Heap) {
    && h'.base == h.base && h'.live == h.live && h'.top == h.top + Rounded(nu) && h'.allocp != NULL
    && Preserved(h, h.live, h')
    && Located(h'.nodes, h'.m) && Fits(h', nu)
    && forall x :: x in h'.nodes && h'.m[x].size >= nu ==> x + h'.m[x].size == h'.top
  }

  lemma GrowThenFree(h: Heap, nu: nat, h1: Heap, h2: Heap)
    requires Inv(h) && h.allocp != NULL && 0 < nu && !Fits(h, nu) && GrownBy(h, Rounded(nu), h1)
    requires Preserved(h, h.live, h1) && h.top !in h.live
    requires FreeSpec(h1, h.top, h2) && Inv(h2)
    ensures MorecoreSpec(h, nu, h2)
  {
    hide Ring, Covered, LiveOk, Partitioned, LiveUnit;
    assert h2.live == h.live;
    AboveTopFree(h);
    NewMemoryFits(h2, nu, h.top);
    forall x | x in h2.nodes && h2.m[x].size >= nu ensures x + h2.m[x].size == h2.top {
      OnlyNewFits(h, nu, h2, x);
    }
  }

  // ---------- the transitions ----------

  /** `free` links block `p` in behind some member that brackets it. */
  ghost predicate FreeStep(h: Heap, p: nat, h': Heap) {
    exists q :: FreedBehind(h, p, q, h')
  }

  /** The first use links the sentinel to itself. */
  ghost function Started(h: Heap): Heap
    requires h.base < |h.m|
  {
    if h.allocp != NULL then h else h.(allocp := h.base, nodes := {h.base}, m := h.m[h.base := Unit(h.base, 0)])
  }

  /** New memory becomes a live block, which is then freed. */
  ghost predicate Grows(h: Heap, nu: nat, h': Heap) {
    exists h1 :: GrownBy(h, Rounded(nu), h1) && FreeStep(h1, h.top, h')
  }

  ghost predicate TakesTail(h: Heap, nu: nat, r: nat, h': Heap) {
    exists q: nat, x: nat :: TakenFrom(h, nu, q, x, h') && r == x + h.m[x].size - nu + 1
  }

  /** The heap the tail is cut from: the one at hand, or, when nothing there fits, one more chunk. */
  ghost predicate Supplied(s: Heap, nu: nat, g: Heap) {
    g == s || (Located(s.nodes, s.m) && !Fits(s, nu) && Grows(s, nu, g))
  }

  /** `malloc` for `nu` units: the first use, growth if nothing fits, and the cut. Without memory to
      grow by it stops after the first use. */
  ghost predicate MallocStep(h: Heap, nu: nat, r: nat, h': Heap) {
    && h.base < |h.m|
    && var s := Started(h);
      if r == NULL then h' == s && s.top == LIMIT && Located(s.nodes, s.m) && !Fits(s, nu)
      else exists g :: Supplied(s, nu, g) && TakesTail(g, nu, r, h')
  }

  lemma FreeStepMade(h: Heap, p: nat, q: nat, h': Heap)
    requires FreedBehind(h, p, q, h')
    ensures FreeStep(h, p, h')
  {
    hide FreedBehind;
  }

  lemma TailTaken(h: Heap, nu: nat, q: nat, x: nat, h': Heap)
    requires TakenFrom(h, nu, q, x, h')
    ensures x < |h.m| && nu <= h.m[x].size && TakesTail(h, nu, x + h.m[x].size - nu + 1, h')
  {
  }

  lemma StepMade(h: Heap, nu: nat, g: Heap, r: nat, h': Heap)
    requires h.base < |h.m| && r != NULL && Supplied(Started(h), nu, g) && TakesTail(g, nu, r, h')
    ensures MallocStep(h, nu, r, h')
  {
  }

  lemma StepRefused(h: Heap, nu: nat, h': Heap)
    requires h.base < |h.m| && h' == Started(h) && h'.top == LIMIT && Located(h'.nodes, h'.m) && !Fits(h', nu)
    ensures MallocStep(h, nu, NULL, h')
  {
  }

  lemma StartedInv(h: Heap, nu: nat)
    requires Inv(h) && 0 < nu
    ensures h.base < |h.m| && Sentineled(h, nu, Started(h))
  {
    SentinelInv(h, nu, Started(h));
  }

  lemma FreeStepInv(h: Heap, p: nat, h': Heap)
    requires Inv(h) && FreeStep(h, p, h')
    ensures Inv(h') && FreeSpec(h, p, h')
  {
    hide Inv, FreeSpec, FreedBehind;
    var q :| FreedBehind(h, p, q, h');
    FreeKeepsInv(h, p, q, h');
  }

  lemma GrowsInv(h: Heap, nu: nat, h': Heap)
    requires Inv(h) && h.allocp != NULL && 0 < nu && Located(h.nodes, h.m) && !Fits(h, nu) && Grows(h, nu, h')
    ensures Inv(h') && MorecoreSpec(h, nu, h')
  {
    hide Inv, FreeSpec, FreeStep, Fits, MorecoreSpec, Preserved;
    var h1 :| GrownBy(h, Rounded(nu), h1) && FreeStep(h1, h.top, h');
    GrowKeepsInv(h, Rounded(nu), h1);
    FreeStepInv(h1, h.top, h');
    GrowThenFree(h, nu, h1, h');
  }

  lemma TakesTailInv(h: Heap, nu: nat, r: nat, h': Heap)
    requires Inv(h) && TakesTail(h, nu, r, h')
    ensures Inv(h') && r != NULL && r - 1 !in h.live && h'.live == h.live[r - 1 := nu] && Preserved(h, h.live, h')
    ensures h'.allocp != NULL && h'.base == h.base && h'.top == h.top
  {
    hide Inv, Preserved, Ring, Covered, LiveUnit;
    var q: nat, x: nat :| TakenFrom(h, nu, q, x, h') && r == x + h.m[x].size - nu + 1;
    TakeKeepsInv(h, nu, q, x, h');
    TakeNotNull(h, nu, q, x, h');
  }

  lemma TakeNotNull(h: Heap, nu: nat, q: nat, x: nat, h': Heap)
    requires Inv(h) && TakenFrom(h, nu, q, x, h')
    ensures h'.allocp != NULL
  {
    hide Covered, LiveUnit, Partitioned;
  }

  /** The transitions of `malloc` keep the invariant and touch no live block. */
  lemma MallocStepInv(h: Heap, nu: nat, r: nat, h': Heap)
    requires Inv(h) && 0 < nu && MallocStep(h, nu, r, h')
    ensures Inv(h') && Preserved(h, h.live, h')
    ensures if r == NULL then h'.live == h.live else r - 1 !in h.live && h'.live == h.live[r - 1 := nu]
  {
    hide Inv, Fits, Supplied, TakesTail, Started, LiveUnit;
    StartedInv(h, nu);
    var s := Started(h);
    if r != NULL {
      var g :| Supplied(s, nu, g) && TakesTail(g, nu, r, h');
      SuppliedInv(s, nu, g);
      TakesTailInv(g, nu, r, h');
    }
  }

  lemma SuppliedInv(s: Heap, nu: nat, g: Heap)
    requires Inv(s) && s.allocp != NULL && 0 < nu && Supplied(s, nu, g)
    ensures Inv(g) && g.live == s.live && Preserved(s, s.live, g)
  {
    hide Inv, Fits, Grows, LiveUnit;
    if g != s {
      GrowsInv(s, nu, g);
    }
  }

  // ---------- the scan of malloc ----------

  /** Finding a fit with every other fit still ahead means finding the next fit. */
  lemma FirstMet(h: Heap, nu: nat, x: nat)
    requires Inv(h) && h.allocp != NULL && x in h.nodes && h.m[x].size >= nu
    requires forall y :: y in h.nodes && h.m[y].size >= nu ==> InArc(x, y, h.allocp)
    ensures NextFit(h, nu, x)
  {
    assert LinkAt(h.nodes, h.m, h.allocp);
  }

  lemma FoundFree(h: Heap, nu: nat, q: nat, x: nat, h': Heap)
    requires Inv(h) && h.allocp != NULL && 0 < nu && TakenFrom(h, nu, q, x, h')
    requires Handed(h, x + h.m[x].size - nu, nu, h')
    requires forall y :: y in h.nodes && h.m[y].size >= nu ==> InArc(x, y, h.allocp)
    ensures MallocSpec(h, nu, x + h.m[x].size - nu + 1, h')
  {
    hide Ring, LiveOk, Partitioned, Preserved, NextFit;
    FirstMet(h, nu, x);
  }

  lemma FoundGrown(h: Heap, nu: nat, g: Heap, q: nat, x: nat, h': Heap)
    requires Inv(h) && Inv(g) && 0 < nu && !Fits(h, nu)
    requires g.live == h.live && Preserved(h, h.live, g) && g.base == h.base && g.top == h.top + Rounded(nu)
    requires TakenFrom(g, nu, q, x, h') && x + g.m[x].size == g.top
    requires Handed(g, g.top - nu, nu, h')
    ensures MallocSpec(h, nu, g.top - nu + 1, h')
  {
    hide Ring, LiveOk, Partitioned;
  }

  /** `s` is the heap `malloc` scans first: `h` itself, or on the first call `h` with the sentinel
      linked to itself. */
  ghost predicate Sentineled(h: Heap, nu: nat, s: Heap) {
    && s.base == h.base && s.top == h.top && s.live == h.live && s.allocp != NULL
    && Inv(s) && Preserved(h, h.live, s)
    && Located(h.nodes, h.m) && (Fits(h, nu) <==> Fits(s, nu))
    && (Fits(h, nu) || h.top == LIMIT ==> s == h)
  }

  /** The first call links the sentinel to itself. */
  lemma SentinelInv(h: Heap, nu: nat, h': Heap)
    requires Inv(h) && 0 < nu
    requires if h.allocp != NULL then h' == h
             else h' == h.(allocp := h.base, nodes := {h.base}, m := h.m[h.base := Unit(h.base, 0)])
    ensures Sentineled(h, nu, h')
  {
  }

  /** The scan stands at `p` behind `q` in heap `g`; every fit is still ahead of it. */
  ghost predicate Scanning(s: Heap, nu: nat, grown: bool, g: Heap, q: nat, p: nat) {
    && Inv(g) && g.allocp != NULL && q in g.nodes && p in g.nodes && g.m[q].ptr == p
    && (forall y :: y in g.nodes && g.m[y].size >= nu ==> InArc(p, y, g.allocp))
    && if grown then Located(s.nodes, s.m) && !Fits(s, nu) && MorecoreSpec(s, nu, g) else g == s
  }

  lemma ScanStart(s: Heap, nu: nat)
    requires Inv(s) && s.allocp != NULL
    ensures Scanning(s, nu, false, s, s.allocp, s.m[s.allocp].ptr)
  {
    ArcAll(s.nodes, s.m, s.allocp);
  }

  lemma ScanStep(s: Heap, nu: nat, grown: bool, g: Heap, q: nat, p: nat)
    requires Scanning(s, nu, grown, g, q, p) && p != g.allocp && g.m[p].size < nu
    ensures Scanning(s, nu, grown, g, p, g.m[p].ptr)
    ensures Arc(g.nodes, g.m[p].ptr, g.allocp) < Arc(g.nodes, p, g.allocp)
  {
    ArcStep(g.nodes, g.m, p, g.allocp);
    assert forall y :: y in g.nodes && InArc(p, y, g.allocp) && y != p ==> y in Arc(g.nodes, p, g.allocp) - {p};
  }

  lemma ScanFacts(s: Heap, nu: nat, grown: bool, g: Heap, q: nat, p: nat)
    requires Scanning(s, nu, grown, g, q, p)
    ensures g.allocp != NULL && q in g.nodes && p in g.nodes && q < |g.m| && p < |g.m| && g.m[q].ptr == p
  {
  }

  /** The scan comes back to the roving pointer only before the arena grew, and then nothing fits. */
  lemma ScanExhausted(h: Heap, s: Heap, nu: nat, grown: bool, g: Heap, q: nat)
    requires Sentineled(h, nu, s) && g.allocp < |g.m|
    requires Scanning(s, nu, grown, g, q, g.allocp) && g.m[g.allocp].size < nu
    ensures !grown && Located(g.nodes, g.m) && !Fits(g, nu) && g == s
    ensures Located(h.nodes, h.m) && !Fits(h, nu) && g.top == h.top && g.base == h.base
    ensures g.top == LIMIT ==> MallocSpec(h, nu, NULL, g)
  {
    hide Ring, LiveOk, Partitioned, Preserved;
    assert forall y :: y in g.nodes && g.m[y].size >= nu ==> InArc(g.allocp, y, g.allocp);
  }

  lemma ScanRestart(s: Heap, nu: nat, g: Heap)
    requires Inv(g) && Located(s.nodes, s.m) && !Fits(s, nu) && MorecoreSpec(s, nu, g)
    ensures g.allocp < |g.m| && Scanning(s, nu, true, g, g.allocp, g.m[g.allocp].ptr)
  {
    ArcAll(g.nodes, g.m, g.allocp);
  }

  lemma ScanFound(h: Heap, s: Heap, nu: nat, grown: bool, g: Heap, q: nat, p: nat, h': Heap)
    requires Sentineled(h, nu, s) && 0 < nu && Scanning(s, nu, grown, g, q, p)
    requires TakenFrom(g, nu, q, p, h') && Handed(g, p + g.m[p].size - nu, nu, h')
    ensures MallocSpec(h, nu, p + g.m[p].size - nu + 1, h')
  {
    hide Ring, LiveOk, Partitioned;
    if grown {
      FoundGrown(s, nu, g, q, p, h');
    } else {
      FoundFree(s, nu, q, p, h');
    }
  }

  class Allocator {
    var units: array<Unit>
    const base: nat
    var allocp: nat
    var membase: nat
    ghost var top: nat
    ghost var nodes: set<nat>
    ghost var live: map<nat, nat>

    ghost function Snap(): Heap
      reads this, units
    {
      Heap(base, allocp, top, nodes, live, units[..])
    }

    ghost predicate Valid()
      reads this, units
    {
      Inv(Snap())
    }

    /** The statics before the first call. The sentinel lies below the arena or above all of it. */
    constructor (base: nat)
      requires 0 < base < LIMIT && base != ARENA
      ensures Valid() && InStep() && fresh(units)
      ensures allocp == NULL && live == map[] && top == ARENA && this.base == base && membase == 0x8001_0000
    {
      units := new Unit[LIMIT](_ => Unit(0, 0));
      this.base := base;
      allocp, membase := NULL, HEADER_BYTES * ARENA;
      top, nodes, live := ARENA, {}, map[];
    }

    /** The search of `free`: from the roving pointer around to the member that brackets `p`. */
    method FindPlace(p: nat) returns (q: nat)
      requires Valid() && p in live
      ensures q in nodes && LinkAt(nodes, units[..], q) && Brackets(q, units[q].ptr, p)
    {
      q := allocp;
      LiveIsClear(Snap(), p);
      ghost var t := BracketExists(nodes, units[..], p);
      while !(p > q && p < units[q].ptr)
        invariant q in nodes
        decreases Arc(nodes, q, t)
      {
        if q >= units[q].ptr && (p > q || p < units[q].ptr) {
          break;
        }
        ArcStep(nodes, units[..], q, t);
        q := units[q].ptr;
      }
    }

    /** Links block `p` in behind `q`, merging it with either neighbour it touches. */
    method Coalesce(p: nat, q: nat)
      requires p < units.Length && p !in nodes && Located(nodes, units[..]) && q in nodes && units[q].ptr in nodes
      modifies units
      ensures Joined(nodes, old(units[..]), q, p, units[..])
    {
      if p + units[p].size == units[q].ptr {
        units[p] := units[p].(size := units[p].size + units[units[q].ptr].size);
        units[p] := units[p].(ptr := units[units[q].ptr].ptr);
      } else {
        units[p] := units[p].(ptr := units[q].ptr);
      }
      if q + units[q].size == p {
        units[q] := units[q].(size := units[q].size + units[p].size);
        units[q] := units[q].(ptr := units[p].ptr);
      } else {
        units[q] := units[q].(ptr := p);
      }
    }

    method Free(ap: nat)
      requires Valid() && ap > 0 && ap - 1 in live
      modifies this, units
      ensures Valid() && units == old(units) && membase == old(membase)
      ensures FreeSpec(old(Snap()), ap - 1, Snap()) && FreeStep(old(Snap()), ap - 1, Snap())
    {
      hide FreeStep;
      var p := ap - 1;
      var q := FindPlace(p);
      ghost var h := Snap();
      LiveIsClear(h, p);
      Coalesce(p, q);
      allocp := q;
      nodes := Inserted(nodes, h.m, q, h.m[q].ptr, p);
      live := live - {p};
      FreeKeepsInv(h, p, q, Snap());
      FreeStepMade(h, p, q, Snap());
    }

    /** `membase` is the first address above the arena (zero once the address space is used up). */
    ghost predicate InStep()
      reads this
    {
      membase == HEADER_BYTES * top % WORD
    }

    /** Growing by `nu` units stays inside the address space and clear of the sentinel, or the
        address space is exactly used up. */
    ghost predicate CanGrow(nu: nat)
      reads this
    {
      && InStep()
      && (top == LIMIT || (top + Rounded(nu) <= LIMIT && (base < ARENA || top + Rounded(nu) < base)))
    }

    method Sbrk(size: nat) returns (p: nat)
      modifies `membase
      ensures p == old(membase) && membase == (old(membase) + size) % WORD
    {
      p := membase;
      membase := (membase + size) % WORD;
    }

    /** The arena grew by the fewest chunks of 128 units that hold `nu` units, and `membase` moved with it. */
    twostate predicate Grown(nu: nat)
      reads this
    {
      && (top - old(top)) % 128 == 0 && nu <= top - old(top) < nu + 128
      && membase == (old(membase) + 8 * (top - old(top))) % 0x1_0000_0000
    }

    method Morecore(nu: nat) returns (p: nat)
      requires Valid() && allocp != NULL && 0 < nu && !Fits(Snap(), nu) && CanGrow(nu)
      modifies this, units
      ensures units == old(units)
      ensures p == NULL ==> Snap() == old(Snap()) && top == LIMIT
      ensures p != NULL ==> Valid() && InStep() && p == allocp && MorecoreSpec(old(Snap()), nu, Snap())
      ensures p != NULL ==> Grows(old(Snap()), nu, Snap()) && Grown(nu)
    {
      hide Inv, ListOk, LiveOk, Preserved, MorecoreSpec;
      BreakAddress(Snap(), nu);
      var rnu := NALLOC * ((nu + NALLOC - 1) / NALLOC);
      var cp := Sbrk(rnu * HEADER_BYTES);
      if cp == NULL {
        return NULL;
      }
      ghost var h := Snap();
      var up := cp / HEADER_BYTES;
      units[up] := units[up].(size := rnu);
      live, top := live[up := rnu], top + rnu;
      ghost var h1 := Snap();
      GrowKeepsInv(h, rnu, h1);
      Free(up + 1);
      GrowThenFree(h, nu, h1, Snap());
      return allocp;
    }

    /** Hands out the last `nunits` units of member `p`, whose predecessor is `q`. */
    method Take(q: nat, p: nat, nunits: nat) returns (r: nat)
      requires Valid() && q in nodes && p in nodes && q < units.Length && p < units.Length
      requires units[q].ptr == p && 0 < nunits <= units[p].size
      modifies this, units
      ensures units == old(units) && membase == old(membase) && r == p + old(units[p].size) - nunits + 1
      ensures Valid() && top == old(top) && TakenFrom(old(Snap()), nunits, q, p, Snap())
      ensures TakesTail(old(Snap()), nunits, r, Snap())
      ensures Handed(old(Snap()), p + old(units[p].size) - nunits, nunits, Snap())
    {
      hide Ring, LiveOk, Partitioned, Preserved, Covered, LiveUnit, TakesTail;
      ghost var h := Snap();
      MemberApart(h, p);
      var block := p;
      if units[p].size == nunits {
        units[q] := units[q].(ptr := units[p].ptr);
        nodes := nodes - {p};
      } else {
        units[block] := units[block].(size := units[block].size - nunits);
        block := block + units[block].size;
        units[block] := units[block].(size := nunits);
      }
      allocp := q;
      live := live[block := nunits];
      TakeKeepsInv(h, nunits, q, p, Snap());
      TailTaken(h, nunits, q, p, Snap());
      return block + 1;
    }

    /** The first call links the sentinel to itself. */
    method FirstUse(ghost nunits: nat) returns (q: nat)
      requires Valid() && 0 < nunits
      modifies this, units
      ensures Snap() == Started(old(Snap()))
      ensures Valid() && Sentineled(old(Snap()), nunits, Snap()) && NULL != q == allocp < units.Length
      ensures units == old(units) && membase == old(membase) && top == old(top)
    {
      hide Fits, Preserved;
      BreakAddress(Snap(), nunits);
      ghost var h := Snap();
      q := allocp;
      if q == NULL {
        units[base] := Unit(base, 0);
        q := base;
        allocp := base;
        nodes := {base};
      }
      SentinelInv(h, nunits, Snap());
    }

    method Malloc(nbytes: nat) returns (r: nat)
      requires Valid() && nbytes + HEADER_BYTES - 1 < WORD
      requires Fits(Snap(), Nunits(nbytes)) || CanGrow(Nunits(nbytes))
      modifies this, units
      ensures Valid() && units == old(units)
      ensures r != NULL && old(InStep()) ==> InStep()
      ensures MallocSpec(old(Snap()), Nunits(nbytes), r, Snap())
      ensures MallocStep(old(Snap()), Nunits(nbytes), r, Snap())
      ensures r != NULL ==> (top == old(top) && membase == old(membase)) || Grown((nbytes + 7) / 8 + 1)
    {
      hide Started, Grows, TakesTail, MallocStep, MorecoreSpec, MallocSpec, TakenFrom, Handed;
      hide Inv, Fits, Preserved, Scanning, Sentineled;
      var nunits := (nbytes + HEADER_BYTES - 1) / HEADER_BYTES + 1;
      ghost var h := Snap();
      StartedInv(h, nunits);
      var q := FirstUse(nunits);
      ghost var s := Snap();
      ScanStart(s, nunits);
      var p := units[q].ptr;
      ghost var grown := false;
      while true
        invariant Valid() && units == old(units)
        invariant Scanning(s, nunits, grown, Snap(), q, p)
        invariant !grown ==> membase == old(membase) && top == old(top)
        invariant grown ==> InStep() && Grown(nunits)
        invariant Supplied(s, nunits, Snap())
        decreases !grown, Arc(nodes, p, allocp)
      {
        ghost var g := Snap();
        ScanFacts(s, nunits, grown, g, q, p);
        if units[p].size >= nunits {
          r := Take(q, p, nunits);
          ScanFound(h, s, nunits, grown, g, q, p, Snap());
          StepMade(h, nunits, g, r, Snap());
          return;
        }
        if p == allocp {
          ScanExhausted(h, s, nunits, grown, g, q);
          p := Morecore(nunits);
          if p == NULL {
            StepRefused(h, nunits, Snap());
            return NULL;
          }
          grown := true;
          ScanRestart(s, nunits, Snap());
        } else {
          ScanStep(s, nunits, grown, g, q, p);
        }
        q, p := p, units[p].ptr;
      }
    }
  }
}
