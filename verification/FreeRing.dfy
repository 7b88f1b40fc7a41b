/** The free list of the storage allocator as a value: a circular list of blocks in
    ascending address order through the size-0 sentinel `base`.

    Memory is a sequence of 8-byte units. A pointer is a unit index, and the first unit
    of a block is its header. `nodes` is the set of list members. */
module FreeRing {

  /** One 8-byte unit seen as a header: the word holding `s.ptr` and the word holding `s.size`. */
  datatype Unit = Unit(ptr: nat, size: nat)

  ghost predicate Located(nodes: set<nat>, m: seq<Unit>) {
    forall x :: x in nodes ==> 0 < x < |m|
  }

  /** `y` follows `x` around the ring: the next member up, or the lowest one after the highest. */
  ghost predicate Follows(nodes: set<nat>, x: nat, y: nat) {
    && y in nodes
    && forall z :: z in nodes ==> if x < y then z <= x || y <= z else y <= z <= x
  }

  ghost predicate LinkAt(nodes: set<nat>, m: seq<Unit>, x: nat)
    requires x < |m|
  {
    Follows(nodes, x, m[x].ptr)
  }

  /** The links form one cycle through the members, ascending in address with exactly one wrap. */
  ghost predicate Linked(nodes: set<nat>, m: seq<Unit>)
    requires Located(nodes, m)
  {
    forall x {:trigger LinkAt(nodes, m, x)} :: x in nodes ==> LinkAt(nodes, m, x)
  }

  /** Blocks are disjoint with a gap after each: no two members are adjacent. */
  ghost predicate Spaced(nodes: set<nat>, m: seq<Unit>)
    requires Located(nodes, m)
  {
    forall x, y :: x in nodes && y in nodes && x < y ==> x + m[x].size < y
  }

  ghost predicate Sized(base: nat, nodes: set<nat>, m: seq<Unit>)
    requires Located(nodes, m)
  {
    forall x :: x in nodes ==> (m[x].size == 0 <==> x == base)
  }

  ghost predicate Ring(base: nat, nodes: set<nat>, m: seq<Unit>) {
    && base in nodes
    && Located(nodes, m)
    && Linked(nodes, m)
    && Spaced(nodes, m)
    && Sized(base, nodes, m)
  }

  /** Unit `u` lies in the block whose header is `x`. */
  ghost predicate InBlock(m: seq<Unit>, x: nat, u: int)
    requires x < |m|
  {
    x <= u < x + m[x].size
  }

  /** Unit `u` lies in a block of the list. */
  ghost predicate Covered(nodes: set<nat>, m: seq<Unit>, u: int)
    requires Located(nodes, m)
  {
    exists x :: x in nodes && InBlock(m, x, u)
  }

  // ---------- the list is a function of the set of free units ----------

  lemma NodeIffRunStart(base: nat, nodes: set<nat>, m: seq<Unit>, x: nat)
    requires Ring(base, nodes, m)
    requires x != base
    ensures x in nodes <==> Covered(nodes, m, x) && !Covered(nodes, m, x - 1)
  {
  }

  lemma EndsBefore(base: nat, nodes: set<nat>, m: seq<Unit>, x: nat, u: nat)
    requires Ring(base, nodes, m) && x in nodes && x <= u
    ensures Covered(nodes, m, u) || x + m[x].size <= u
  {
  }

  lemma NotCoveredAtEnd(base: nat, nodes: set<nat>, m: seq<Unit>, x: nat)
    requires Ring(base, nodes, m) && x in nodes
    ensures !Covered(nodes, m, x + m[x].size)
  {
  }

  /** Canonical form: two lists over the same free units have the same members, links and sizes. */
  lemma Canonical(base: nat, nodes: set<nat>, m: seq<Unit>, nodes': set<nat>, m': seq<Unit>)
    requires Ring(base, nodes, m) && Ring(base, nodes', m')
    requires forall u :: Covered(nodes, m, u) <==> Covered(nodes', m', u)
    ensures nodes == nodes'
    ensures forall x :: x in nodes ==> m[x] == m'[x]
  {
    forall x: nat ensures x in nodes <==> x in nodes' {
      if x != base {
        NodeIffRunStart(base, nodes, m, x);
        NodeIffRunStart(base, nodes', m', x);
      }
    }
    assert nodes == nodes';
    forall x | x in nodes ensures m[x] == m'[x] {
      EndsBefore(base, nodes, m, x, x + m'[x].size);
      EndsBefore(base, nodes, m', x, x + m[x].size);
      NotCoveredAtEnd(base, nodes, m, x);
      NotCoveredAtEnd(base, nodes, m', x);
      assert LinkAt(nodes, m, x) && LinkAt(nodes, m', x);
    }
  }

  /** A covered run of units lies inside one block. */
  lemma RunInOneBlock(base: nat, nodes: set<nat>, m: seq<Unit>, lo: nat, n: nat) returns (x: nat)
    requires Ring(base, nodes, m)
    requires n > 0 && forall u :: lo <= u < lo + n ==> Covered(nodes, m, u)
    ensures x in nodes && x <= lo && lo + n <= x + m[x].size
  {
    assert Covered(nodes, m, lo);
    x :| x in nodes && InBlock(m, x, lo);
    NotCoveredAtEnd(base, nodes, m, x);
  }

  // ---------- removing a block and splitting one ----------

  /** Dropping one member, or shortening one, removes that part of the covered units. */
  lemma SameCover(nodes: set<nat>, m: seq<Unit>, nodes': set<nat>, m': seq<Unit>, lo: int, hi: int)
    requires Located(nodes, m) && Located(nodes', m') && nodes' <= nodes
    requires forall x :: x in nodes' ==> m'[x].size <= m[x].size && (x + m'[x].size <= lo || hi <= x || hi <= lo)
    requires forall x :: x in nodes && x !in nodes' ==> lo <= x && x + m[x].size <= hi
    requires forall x :: x in nodes' && m'[x].size != m[x].size ==> lo == x + m'[x].size && hi == x + m[x].size
    ensures forall u :: Covered(nodes', m', u) <==> Covered(nodes, m, u) && !(lo <= u < hi)
  {
    forall u | Covered(nodes', m', u) ensures Covered(nodes, m, u) && !(lo <= u < hi) {
      var x :| x in nodes' && InBlock(m', x, u);
      assert x in nodes && InBlock(m, x, u);
    }
    forall u | Covered(nodes, m, u) && !(lo <= u < hi) ensures Covered(nodes', m', u) {
      var x :| x in nodes && InBlock(m, x, u);
      assert x in nodes' && InBlock(m', x, u);
    }
  }

  lemma UnlinkLinks(nodes: set<nat>, m: seq<Unit>, q: nat, p: nat, m': seq<Unit>)
    requires Located(nodes, m) && Linked(nodes, m) && q in nodes && p in nodes && m[q].ptr == p != q
    requires m' == m[q := m[q].(ptr := m[p].ptr)]
    ensures Linked(nodes - {p}, m')
  {
    assert LinkAt(nodes, m, q) && LinkAt(nodes, m, p);
    forall x | x in nodes - {p} ensures LinkAt(nodes - {p}, m', x) {
      assert LinkAt(nodes, m, x);
    }
  }

  /** Unlinking the member `p` after `q` keeps the ring. */
  lemma UnlinkRing(base: nat, nodes: set<nat>, m: seq<Unit>, q: nat, p: nat, m': seq<Unit>)
    requires Ring(base, nodes, m) && q in nodes && p in nodes && m[q].ptr == p != base
    requires m' == m[q := m[q].(ptr := m[p].ptr)]
    ensures q != p
    ensures Ring(base, nodes - {p}, m')
  {
    assert q != p by { assert LinkAt(nodes, m, q); }
    UnlinkLinks(nodes, m, q, p, m');
  }

  /** ... and takes exactly the units of `p` away. */
  lemma UnlinkCovers(base: nat, nodes: set<nat>, m: seq<Unit>, p: nat, m': seq<Unit>)
    requires Ring(base, nodes, m) && p in nodes && |m'| == |m|
    requires forall x :: x in nodes ==> m'[x].size == m[x].size
    ensures Located(nodes - {p}, m')
    ensures forall u :: Covered(nodes - {p}, m', u) <==> Covered(nodes, m, u) && !InBlock(m, p, u)
  {
    SameCover(nodes, m, nodes - {p}, m', p, p + m[p].size);
  }

  lemma SameLinks(nodes: set<nat>, m: seq<Unit>, m': seq<Unit>)
    requires Located(nodes, m) && Linked(nodes, m) && |m'| == |m|
    requires forall x :: x in nodes ==> m'[x].ptr == m[x].ptr
    ensures Linked(nodes, m')
  {
    forall x | x in nodes ensures LinkAt(nodes, m', x) {
      assert LinkAt(nodes, m, x);
    }
  }

  lemma SameHeaders(base: nat, nodes: set<nat>, m: seq<Unit>, m': seq<Unit>)
    requires Ring(base, nodes, m) && |m'| == |m|
    requires forall x :: x in nodes ==> m'[x] == m[x]
    ensures Ring(base, nodes, m')
    ensures forall u :: Covered(nodes, m', u) <==> Covered(nodes, m, u)
  {
    SameLinks(nodes, m, m');
    SameCover(nodes, m, nodes, m', 0, 0);
  }

  /** Shrinking member `p` by `nu` units keeps the ring. */
  lemma TailCutRing(base: nat, nodes: set<nat>, m: seq<Unit>, p: nat, nu: nat, m': seq<Unit>)
    requires Ring(base, nodes, m) && p in nodes && 0 < nu < m[p].size && |m'| == |m|
    requires m'[p] == m[p].(size := m[p].size - nu)
    requires forall x :: x in nodes && x != p ==> m'[x] == m[x]
    ensures Ring(base, nodes, m')
  {
    SameLinks(nodes, m, m');
  }

  /** ... and takes exactly its tail away. */
  lemma TailCutCovers(base: nat, nodes: set<nat>, m: seq<Unit>, p: nat, nu: nat, m': seq<Unit>)
    requires Ring(base, nodes, m) && p in nodes && 0 < nu < m[p].size && |m'| == |m|
    requires m'[p] == m[p].(size := m[p].size - nu)
    requires forall x :: x in nodes && x != p ==> m'[x] == m[x]
    ensures Located(nodes, m')
    ensures forall u :: Covered(nodes, m', u) <==>
      Covered(nodes, m, u) && !(p + m[p].size - nu <= u < p + m[p].size)
  {
    SameCover(nodes, m, nodes, m', p + m'[p].size, p + m[p].size);
  }

  // ---------- inserting a block, with coalescing on both sides ----------

  /** The search condition of `free`: `p` lies between `q` and its successor `s`, or beyond both
      ends of the list at the wrap. */
  predicate Brackets(q: nat, s: nat, p: nat) {
    q < p < s || (q >= s && (p > q || p < s))
  }

  /** Block `p` is clear of every member, and does not end at the sentinel. */
  ghost predicate Clear(base: nat, nodes: set<nat>, m: seq<Unit>, p: nat)
    requires Located(nodes, m)
  {
    && 0 < p < |m| && m[p].size > 0 && p + m[p].size != base
    && forall x :: x in nodes ==> x != p && (x + m[x].size <= p || p + m[p].size <= x)
  }

  /** The members after freeing block `p` between `q` and `s`. */
  function Inserted(nodes: set<nat>, m: seq<Unit>, q: nat, s: nat, p: nat): set<nat>
    requires q < |m| && p < |m|
  {
    nodes + (if q + m[q].size == p then {} else {p}) - (if p + m[p].size == s then {s} else {})
  }

  /** The header of `p` after it took over `s` if adjacent. */
  function UpperJoined(m: seq<Unit>, s: nat, p: nat): Unit
    requires s < |m| && p < |m|
  {
    if p + m[p].size == s then Unit(m[s].ptr, m[p].size + m[s].size) else m[p].(ptr := s)
  }

  /** The header of `q` after it took over `p` (whose header is now `h`) if adjacent. */
  function LowerJoined(m: seq<Unit>, q: nat, p: nat, h: Unit): Unit
    requires q < |m|
  {
    if q + m[q].size == p then Unit(h.ptr, m[q].size + h.size) else m[q].(ptr := p)
  }

  ghost predicate Joined(nodes: set<nat>, m: seq<Unit>, q: nat, p: nat, m': seq<Unit>)
    requires Located(nodes, m) && q in nodes && m[q].ptr < |m| && p < |m|
  {
    && |m'| == |m|
    && m'[p] == UpperJoined(m, m[q].ptr, p)
    && m'[q] == LowerJoined(m, q, p, m'[p])
    && forall u :: 0 <= u < |m| && u != p && u != q ==> m'[u] == m[u]
  }

  lemma InsertSpaced(base: nat, nodes: set<nat>, m: seq<Unit>, q: nat, p: nat, m': seq<Unit>)
    requires Ring(base, nodes, m) && Clear(base, nodes, m, p)
    requires q in nodes && LinkAt(nodes, m, q) && Brackets(q, m[q].ptr, p)
    requires Joined(nodes, m, q, p, m')
    ensures var nodes' := Inserted(nodes, m, q, m[q].ptr, p);
      base in nodes' && Located(nodes', m') && Spaced(nodes', m') && Sized(base, nodes', m')
  {
  }

  lemma InsertLinked(base: nat, nodes: set<nat>, m: seq<Unit>, q: nat, p: nat, m': seq<Unit>)
    requires Ring(base, nodes, m) && Clear(base, nodes, m, p)
    requires q in nodes && LinkAt(nodes, m, q) && Brackets(q, m[q].ptr, p)
    requires Joined(nodes, m, q, p, m')
    ensures var nodes' := Inserted(nodes, m, q, m[q].ptr, p); Located(nodes', m') && Linked(nodes', m')
  {
    var nodes' := Inserted(nodes, m, q, m[q].ptr, p);
    assert LinkAt(nodes, m, m[q].ptr);
    forall x | x in nodes' ensures LinkAt(nodes', m', x) {
      if x in nodes { assert LinkAt(nodes, m, x); }
    }
  }

  lemma InsertCovers(base: nat, nodes: set<nat>, m: seq<Unit>, q: nat, p: nat, m': seq<Unit>)
    requires Ring(base, nodes, m) && Clear(base, nodes, m, p)
    requires q in nodes && LinkAt(nodes, m, q) && Brackets(q, m[q].ptr, p)
    requires Joined(nodes, m, q, p, m')
    ensures var nodes' := Inserted(nodes, m, q, m[q].ptr, p);
      Located(nodes', m') && forall u :: Covered(nodes', m', u) <==> Covered(nodes, m, u) || p <= u < p + m[p].size
  {
    var s := m[q].ptr;
    var nodes' := Inserted(nodes, m, q, s, p);
    var holder := if q + m[q].size == p then q else p;
    assert holder in nodes';
    forall u | Covered(nodes, m, u) || p <= u < p + m[p].size ensures Covered(nodes', m', u) {
      if p <= u < p + m[p].size || (InBlock(m, q, u) && holder == q) || (InBlock(m, s, u) && p + m[p].size == s) {
        assert InBlock(m', holder, u);
      } else {
        var x :| x in nodes && InBlock(m, x, u);
        assert x in nodes' && InBlock(m', x, u);
      }
    }
    forall u | Covered(nodes', m', u) ensures Covered(nodes, m, u) || p <= u < p + m[p].size {
      var x :| x in nodes' && InBlock(m', x, u);
      if x == p || x == q {
        assert InBlock(m, x, u) || p <= u < p + m[p].size || InBlock(m, s, u);
      } else {
        assert InBlock(m, x, u);
      }
    }
  }
}
