/** irq.c: the interrupt lines, the decoding of pending status words, and the lists of registered actions. */
module IrqTables {
  import opened Bits

  const LINES: nat := 256
  const BOARD_LINES: nat := 160
  const DMA_BASE: nat := 168
  const DMA_COUNT: nat := 16
  const CASCADE: nat := 32 + 10

  /** Registers of one board controller. */
  datatype IcRegs = IcRegs(isr: Word, en: Word, clr: Word, pol: Word, edge: Word)
  /** Interrupt registers of the DMA coprocessor. */
  datatype DmaRegs = DmaRegs(rdEn: Word, wrEn: Word, rdIsr: Word, wrIsr: Word)
  /** The chip a table entry points to. */
  datatype Chip = NoChip | Board | Dma

  /** A handler that ran: the line it ran for, its action, and the interrupt registers meanwhile. */
  datatype Ran = Ran(irq: nat, action: Action, seen: Bank)

  class Action {
    var next: Action?
    constructor ()
      ensures next == null
    {
      next := null;
    }
  }

  /** Numbers the dispatchers produce. */
  predicate Served(irq: nat) {
    irq < BOARD_LINES || DMA_BASE <= irq < DMA_BASE + DMA_COUNT
  }

  /** All interrupt registers. */
  datatype Bank = Bank(board: seq<IcRegs>, dma: DmaRegs)

  /** The enable bit of line `irq`. */
  predicate EnabledIn(b: Bank, irq: nat)
    requires |b.board| == 5 && Served(irq)
  {
    if irq < BOARD_LINES then Bit(b.board[irq / 32].en, irq % 32)
    else if irq < DMA_BASE + 8 then Bit(b.dma.rdEn, irq - DMA_BASE)
    else Bit(b.dma.wrEn, irq - DMA_BASE - 8)
  }

  /** The enable bit of line `irq` is now `on`, and every other bit of the enable registers is as it was:
      bit `j` of controller `m` is line `32 * m + j`, and the low bytes of the two DMA registers are the
      lines from 168 and from 176 on. */
  ghost predicate OnlyLine(b: Bank, b': Bank, irq: nat, on: bool) {
    && |b.board| == |b'.board| == 5
    && (forall m: nat, j: nat :: m < 5 && j < 32 ==>
      (Bit(b'.board[m].en, j) <==> if 32 * m + j == irq then on else Bit(b.board[m].en, j)))
    && (forall j: nat :: j < 32 ==>
      (Bit(b'.dma.rdEn, j) <==> if j < 8 && 168 + j == irq then on else Bit(b.dma.rdEn, j)))
    && (forall j: nat :: j < 32 ==>
      (Bit(b'.dma.wrEn, j) <==> if j < 8 && 176 + j == irq then on else Bit(b.dma.wrEn, j)))
  }

  /** The enable bit of a line sits at the place its status bit sits at: bit `j` of controller `m` ... */
  lemma BoardBit(b: Bank, m: nat, j: nat)
    requires |b.board| == 5 && m < 5 && j < 32
    ensures Served(32 * m + j) && (EnabledIn(b, 32 * m + j) <==> Bit(b.board[m].en, j))
    ensures StatusIn(b, 32 * m + j) <==> Bit(b.board[m].isr, j)
  {
    hide Bit;
    assert (32 * m + j) / 32 == m && (32 * m + j) % 32 == j;
  }

  /** ... and bit `j` of the DMA registers. */
  lemma DmaBit(b: Bank, j: nat)
    requires |b.board| == 5 && j < 8
    ensures Served(168 + j) && (EnabledIn(b, 168 + j) <==> Bit(b.dma.rdEn, j))
    ensures StatusIn(b, 168 + j) <==> Bit(b.dma.rdIsr, j)
    ensures Served(176 + j) && (EnabledIn(b, 176 + j) <==> Bit(b.dma.wrEn, j))
    ensures StatusIn(b, 176 + j) <==> Bit(b.dma.wrIsr, j)
  {
    hide Bit;
  }

  lemma OnlyLineServed(b: Bank, b': Bank, irq: nat, on: bool, q: nat)
    requires OnlyLine(b, b', irq, on) && Served(q)
    ensures EnabledIn(b', q) <==> if q == irq then on else EnabledIn(b, q)
  {
    hide Bit;
    if q < 160 {
      assert q == 32 * (q / 32) + q % 32;
    }
  }

  /** Everything but the enable registers is as it was. */
  predicate RestKept(b: Bank, b': Bank) {
    && |b.board| == |b'.board|
    && (forall m :: 0 <= m < |b.board| ==> b'.board[m] == b.board[m].(en := b'.board[m].en))
    && b'.dma == b.dma.(rdEn := b'.dma.rdEn, wrEn := b'.dma.wrEn)
  }

  /** The enable registers are as they were. */
  predicate EnablesKept(b: Bank, b': Bank) {
    && |b.board| == |b'.board|
    && (forall m :: 0 <= m < |b.board| ==> b'.board[m].en == b.board[m].en)
    && b'.dma.rdEn == b.dma.rdEn && b'.dma.wrEn == b.dma.wrEn
  }

  /** Of the registers that are not enable registers, only the one that acknowledges `irq` changed:
      its clear bit is set, or its DMA status register got the line's mask. */
  predicate OnlyAcked(b: Bank, b': Bank, irq: nat)
    requires Served(irq)
  {
    && |b.board| == |b'.board| == 5
    && (forall m :: 0 <= m < 5 ==> b'.board[m] == b.board[m].(en := b'.board[m].en, clr := b'.board[m].clr))
    && (forall m: nat, j: nat :: m < 5 && j < 32 ==>
      (Bit(b'.board[m].clr, j) <==> 32 * m + j == irq || Bit(b.board[m].clr, j)))
    && b'.dma.rdIsr == (if 168 <= irq < 176 then Mask(irq - 168) else b.dma.rdIsr)
    && b'.dma.wrIsr == (if 176 <= irq then Mask(irq - 176) else b.dma.wrIsr)
  }

  lemma SameEnables(b: Bank, b': Bank, irq: nat)
    requires EnablesKept(b, b') && |b.board| == 5 && Served(irq)
    ensures EnabledIn(b, irq) <==> EnabledIn(b', irq)
  {
  }

  /** Mask, acknowledge and unmask of one line, seen as one step. */
  lemma LevelCycle(b0: Bank, b1: Bank, b2: Bank, b3: Bank, irq: nat)
    requires Served(irq)
    requires OnlyLine(b0, b1, irq, false) && RestKept(b0, b1)
    requires OnlyAcked(b1, b2, irq) && EnablesKept(b1, b2)
    requires OnlyLine(b2, b3, irq, true) && RestKept(b2, b3)
    ensures OnlyLine(b0, b2, irq, false) && OnlyAcked(b0, b2, irq)
    ensures OnlyLine(b0, b3, irq, true) && OnlyAcked(b0, b3, irq)
  {
    hide Bit, Mask;
    CycleEnables(b0, b1, b2, b3, irq);
    CycleAcks(b0, b1, b2, b2, irq);
    CycleAcks(b0, b1, b2, b3, irq);
  }

  lemma CycleEnables(b0: Bank, b1: Bank, b2: Bank, b3: Bank, irq: nat)
    requires OnlyLine(b0, b1, irq, false) && EnablesKept(b1, b2) && OnlyLine(b2, b3, irq, true)
    ensures OnlyLine(b0, b2, irq, false) && OnlyLine(b0, b3, irq, true)
  {
    hide Bit;
  }

  lemma CycleAcks(b0: Bank, b1: Bank, b2: Bank, b3: Bank, irq: nat)
    requires Served(irq) && |b0.board| == 5
    requires RestKept(b0, b1) && OnlyAcked(b1, b2, irq) && RestKept(b2, b3)
    ensures OnlyAcked(b0, b3, irq)
  {
    hide Bit, Mask;
    forall m: nat, j: nat | m < 5 && j < 32
      ensures Bit(b3.board[m].clr, j) <==> 32 * m + j == irq || Bit(b0.board[m].clr, j)
    {
      assert b3.board[m].clr == b2.board[m].clr && b1.board[m].clr == b0.board[m].clr;
    }
  }

  /** `k` is the lowest set bit. */
  predicate Lowest(w: Word, k: nat) {
    k < 32 && Bit(w, k) && forall j :: 0 <= j < k ==> !Bit(w, j)
  }

  lemma FfsOfLowest(w: Word, k: nat)
    requires Lowest(w, k)
    ensures Ffs(w) == k + 1
  {
    hide Bit, Ffs;
    FfsIsLowest(w);
    if w == 0 {
      NoBits(k);
    }
  }

  /** Status bit `k` of controller `n`, the lowest one, is line `32 * n + k`, except for the cascade. */
  lemma PickedBoard(b: Bank, n: nat, k: nat)
    requires |b.board| == 5 && n < 5 && Lowest(b.board[n].isr, k)
    ensures BoardPending(b, n) == if n == 1 && k == 10 then DmaPending(b.dma) else Line(32 * n + k)
  {
    hide Ffs, DmaPending;
    FfsOfLowest(b.board[n].isr, k);
  }

  lemma PickedRead(d: DmaRegs, j: nat)
    requires j < 8 && Lowest(d.rdIsr, j)
    ensures DmaPending(d) == Line(168 + j)
  {
    hide Bit, Ffs, BothHalves;
    forall i: nat | i <= j ensures Bit(BothHalves(d.wrIsr, d.rdIsr), i) <==> Bit(d.rdIsr, i) {
      LowHalf(d.wrIsr, d.rdIsr, i);
    }
    FfsOfLowest(BothHalves(d.wrIsr, d.rdIsr), j);
  }

  lemma PickedWrite(d: DmaRegs, j: nat)
    requires j < 8 && Lowest(d.wrIsr, j) && forall i :: 0 <= i < 8 ==> !Bit(d.rdIsr, i)
    ensures DmaPending(d) == Line(176 + j)
  {
    hide Bit, Ffs, BothHalves;
    forall i: nat | i < 8 ensures !Bit(BothHalves(d.wrIsr, d.rdIsr), i) {
      LowHalf(d.wrIsr, d.rdIsr, i);
    }
    forall i: nat | 8 <= i <= j + 8 ensures Bit(BothHalves(d.wrIsr, d.rdIsr), i) <==> Bit(d.wrIsr, i - 8) {
      HighHalf(d.wrIsr, d.rdIsr, i);
    }
    FfsOfLowest(BothHalves(d.wrIsr, d.rdIsr), j + 8);
  }

  /** While the handlers of line `irq` ran in `seen` it was masked and acknowledged; in `b'` it is enabled. */
  ghost predicate Cycled(b: Bank, seen: Bank, b': Bank, irq: nat)
    requires Served(irq)
  {
    && OnlyLine(b, seen, irq, false) && OnlyAcked(b, seen, irq)
    && OnlyLine(b, b', irq, true) && OnlyAcked(b, b', irq)
  }

  lemma CycledShape(b: Bank, seen: Bank, b': Bank, irq: nat)
    requires Served(irq) && Cycled(b, seen, b', irq)
    ensures |b.board| == |seen.board| == |b'.board| == 5
  {
  }

  /** The same, said of the bits of one controller. */
  lemma BoardCycled(b: Bank, seen: Bank, b': Bank, n: nat, k: nat)
    requires n < 5 && k < 32 && Served(32 * n + k) && Cycled(b, seen, b', 32 * n + k)
    ensures |seen.board| == |b'.board| == 5
    ensures !Bit(seen.board[n].en, k) && Bit(seen.board[n].clr, k) && Bit(b'.board[n].en, k)
  {
    hide Bit;
  }

  /** ... and of the bits of the DMA registers. */
  lemma DmaCycled(b: Bank, seen: Bank, b': Bank, j: nat)
    requires j < 8
    ensures Served(168 + j) && Cycled(b, seen, b', 168 + j) ==>
      !Bit(seen.dma.rdEn, j) && seen.dma.rdIsr == Mask(j) && Bit(b'.dma.rdEn, j)
    ensures Served(176 + j) && Cycled(b, seen, b', 176 + j) ==>
      !Bit(seen.dma.wrEn, j) && seen.dma.wrIsr == Mask(j) && Bit(b'.dma.wrEn, j)
  {
    hide Bit, Mask;
  }

  /** The lowest pending DMA line was handled, read lines first: its bit was clear in the enable register
      while the handlers ran, and is set now. */
  ghost predicate DmaRan(b: Bank, seen: Bank, b': Bank, chain: seq<seq<Action>>, before: seq<Ran>, after: seq<Ran>)
    requires |chain| == LINES
  {
    && (forall j :: 0 <= j < 8 && Lowest(b.dma.rdIsr, j) ==>
      && after == before + AllRan(168 + j, chain[168 + j], seen)
      && !Bit(seen.dma.rdEn, j) && seen.dma.rdIsr == Mask(j) && Bit(b'.dma.rdEn, j))
    && (forall j :: 0 <= j < 8 && Lowest(b.dma.wrIsr, j) && (forall i :: 0 <= i < 8 ==> !Bit(b.dma.rdIsr, i)) ==>
      && after == before + AllRan(176 + j, chain[176 + j], seen)
      && !Bit(seen.dma.wrEn, j) && seen.dma.wrIsr == Mask(j) && Bit(b'.dma.wrEn, j))
  }

  lemma DmaByBits(b: Bank, seen: Bank, b': Bank, chain: seq<seq<Action>>, before: seq<Ran>, after: seq<Ran>)
    requires |chain| == LINES
    requires var p := DmaPending(b.dma);
      p.Line? ==> Served(p.irq) && Cycled(b, seen, b', p.irq) && after == before + AllRan(p.irq, chain[p.irq], seen)
    ensures DmaRan(b, seen, b', chain, before, after)
  {
    hide Bit, Mask, DmaPending, Cycled, Lowest, AllRan;
    forall j | 0 <= j < 8 && Lowest(b.dma.rdIsr, j)
      ensures after == before + AllRan(168 + j, chain[168 + j], seen)
      ensures !Bit(seen.dma.rdEn, j) && seen.dma.rdIsr == Mask(j) && Bit(b'.dma.rdEn, j)
    {
      PickedRead(b.dma, j);
      DmaCycled(b, seen, b', j);
    }
    forall j | 0 <= j < 8 && Lowest(b.dma.wrIsr, j) && (forall i :: 0 <= i < 8 ==> !Bit(b.dma.rdIsr, i))
      ensures after == before + AllRan(176 + j, chain[176 + j], seen)
      ensures !Bit(seen.dma.wrEn, j) && seen.dma.wrIsr == Mask(j) && Bit(b'.dma.wrEn, j)
    {
      PickedWrite(b.dma, j);
      DmaCycled(b, seen, b', j);
    }
  }

  /** What the board dispatcher does, by the bits of the status register of controller `n`. */
  lemma BoardByBits(b: Bank, seen: Bank, b': Bank, n: nat)
    requires |b.board| == 5 && n < 5
    ensures forall q: nat :: Served(q) && Cycled(b, seen, b', q) ==> |seen.board| == |b'.board| == 5
    ensures forall k :: 0 <= k < 32 && Lowest(b.board[n].isr, k) ==>
      && Ffs(b.board[n].isr) == k + 1 && Served(32 * n + k)
      && BoardPending(b, n) == (if n == 1 && k == 10 then DmaPending(b.dma) else Line(32 * n + k))
      && (Cycled(b, seen, b', 32 * n + k) ==>
        && |seen.board| == |b'.board| == 5
        && !Bit(seen.board[n].en, k) && Bit(seen.board[n].clr, k) && Bit(b'.board[n].en, k))
  {
    hide Bit, DmaPending, BoardPending, Lowest, Ffs;
    forall k: nat | k < 32 && Lowest(b.board[n].isr, k)
      ensures Ffs(b.board[n].isr) == k + 1
      ensures BoardPending(b, n) == if n == 1 && k == 10 then DmaPending(b.dma) else Line(32 * n + k)
      ensures Cycled(b, seen, b', 32 * n + k) ==>
        !Bit(seen.board[n].en, k) && Bit(seen.board[n].clr, k) && Bit(b'.board[n].en, k)
    {
      FfsOfLowest(b.board[n].isr, k);
      PickedBoard(b, n, k);
      if Cycled(b, seen, b', 32 * n + k) {
        BoardCycled(b, seen, b', n, k);
      }
    }
  }

  /** Exactly the lines with a registered action are enabled. */
  ghost predicate EnabledIffRegistered(b: Bank, chain: seq<seq<Action>>) {
    |b.board| == 5 && |chain| == LINES && forall q: nat :: Served(q) ==> (EnabledIn(b, q) <==> chain[q] != [])
  }

  // ---------- which line a dispatcher picks ----------

  /** The status bit of line `irq`, decoded as the mask and unmask routines decode the line. */
  predicate StatusIn(b: Bank, irq: nat)
    requires |b.board| == 5 && Served(irq)
  {
    if irq < BOARD_LINES then Bit(b.board[irq / 32].isr, irq % 32)
    else if irq < DMA_BASE + 8 then Bit(b.dma.rdIsr, irq - DMA_BASE)
    else Bit(b.dma.wrIsr, irq - DMA_BASE - 8)
  }

  datatype Pending = Nothing | Line(irq: nat)

  /** The write status byte above the read status byte. */
  function BothHalves(wr: Word, rd: Word): Word {
    ((wr & 0xff) << 8) | (rd & 0xff)
  }

  lemma LowHalf(wr: Word, rd: Word, j: nat)
    requires j < 8
    ensures Bit(BothHalves(wr, rd), j) <==> Bit(rd, j)
  {
  }

  lemma HighHalf(wr: Word, rd: Word, j: nat)
    requires 8 <= j < 16
    ensures Bit(BothHalves(wr, rd), j) <==> Bit(wr, j - 8)
  {
  }

  lemma NoHalf(wr: Word, rd: Word, j: nat)
    requires 16 <= j < 32
    ensures !Bit(BothHalves(wr, rd), j)
  {
  }

  /** The line `ls1gp_board_dma_irqdispatch` picks. */
  function DmaPending(dma: DmaRegs): (p: Pending)
    ensures p.Line? ==> p.irq < LINES
  {
    var k := Ffs(BothHalves(dma.wrIsr, dma.rdIsr));
    if k == 0 then Nothing else Line(DMA_BASE + k - 1)
  }

  /** The line `ls1b_board_hw_irqdispatch(n)` picks; bit 10 of the second register passes on to the DMA lines. */
  function BoardPending(b: Bank, n: nat): (p: Pending)
    requires |b.board| == 5 && n < 5
    ensures p.Line? ==> p.irq < LINES
  {
    var k := Ffs(b.board[n].isr);
    if k == 0 then Nothing
    else if n == 1 && k == 11 then DmaPending(b.dma)
    else Line(n * 32 + k - 1)
  }

  lemma DmaStatus(b: Bank, j: nat)
    requires |b.board| == 5 && j < DMA_COUNT
    ensures StatusIn(b, DMA_BASE + j) <==> Bit(BothHalves(b.dma.wrIsr, b.dma.rdIsr), j)
  {
    hide Bit, BothHalves;
    if j < 8 {
      LowHalf(b.dma.wrIsr, b.dma.rdIsr, j);
    } else {
      HighHalf(b.dma.wrIsr, b.dma.rdIsr, j);
    }
  }

  lemma NoBits(j: nat)
    requires j < 32
    ensures !Bit(0, j)
  {
  }

  /** The DMA dispatcher picks the lowest pending DMA line, and nothing exactly when none is pending. */
  lemma DmaPendingDecodes(b: Bank)
    requires |b.board| == 5
    ensures var p := DmaPending(b.dma);
      match p {
        case Line(q) => DMA_BASE <= q < DMA_BASE + DMA_COUNT && StatusIn(b, q)
                        && forall r :: DMA_BASE <= r < q ==> !StatusIn(b, r)
        case Nothing => forall r :: DMA_BASE <= r < DMA_BASE + DMA_COUNT ==> !StatusIn(b, r)
      }
  {
    hide Bit, BothHalves, Ffs, StatusIn;
    var w := BothHalves(b.dma.wrIsr, b.dma.rdIsr);
    FfsIsLowest(w);
    if w != 0 && Ffs(w) > DMA_COUNT {
      NoHalf(b.dma.wrIsr, b.dma.rdIsr, Ffs(w) - 1);
    }
    forall r | DMA_BASE <= r < DMA_BASE + DMA_COUNT
      ensures StatusIn(b, r) <==> Bit(w, r - DMA_BASE)
      ensures w == 0 ==> !Bit(w, r - DMA_BASE)
    {
      DmaStatus(b, r - DMA_BASE);
      NoBits(r - DMA_BASE);
    }
  }

  /** Lines below `irq` in the register of `irq` are not pending. */
  predicate LowestInRegister(b: Bank, irq: nat)
    requires |b.board| == 5 && irq < BOARD_LINES
  {
    StatusIn(b, irq) && forall r :: irq / 32 * 32 <= r < irq ==> !StatusIn(b, r)
  }

  /** The board dispatcher picks the lowest pending line of its register, unless that is the cascade
      line: then the lowest pending DMA line; what it picks is a served line whose status bit is set
      in the very register the mask and acknowledge routines address for it. */
  lemma PendingDecodes(b: Bank, n: nat)
    requires |b.board| == 5 && n < 5
    ensures var p := BoardPending(b, n);
      match p {
        case Line(q) =>
          Served(q) && StatusIn(b, q) && q != CASCADE
          && (if q < BOARD_LINES then q / 32 == n && LowestInRegister(b, q)
              else n == 1 && LowestInRegister(b, CASCADE)
                   && forall r :: DMA_BASE <= r < q ==> !StatusIn(b, r))
        case Nothing =>
          (forall r :: n * 32 <= r < n * 32 + 32 ==> !StatusIn(b, r))
          || (n == 1 && LowestInRegister(b, CASCADE)
              && forall r :: DMA_BASE <= r < DMA_BASE + DMA_COUNT ==> !StatusIn(b, r))
      }
  {
    hide Bit, Ffs, DmaPending;
    var w := b.board[n].isr;
    FfsIsLowest(w);
    DmaPendingDecodes(b);
    forall j: nat | j < 32 ensures StatusIn(b, n * 32 + j) <==> Bit(w, j) ensures w == 0 ==> !Bit(w, j) {
      NoBits(j);
    }
    forall r | n * 32 <= r < n * 32 + 32 ensures StatusIn(b, r) <==> Bit(w, r - n * 32) {
      assert r == n * 32 + (r - n * 32);
    }
  }

  // ---------- the lists of actions ----------

  /** The `next` field of every registered action. */
  type Links = map<Action, Action?>

  /** The list that starts at `head` runs through the members of `c` in order and ends. */
  ghost predicate Chain(links: Links, head: Action?, c: seq<Action>) {
    && (c == [] <==> head == null) && (c != [] ==> head == c[0])
    && forall i :: 0 <= i < |c| ==> c[i] in links && links[c[i]] == if i + 1 < |c| then c[i+1] else null
  }

  /** Every action list is acyclic and in registration order, and no action is in two places. */
  ghost predicate Lists(links: Links, action: seq<Action?>, chain: seq<seq<Action>>) {
    && |action| == |chain| == LINES
    && (forall q :: 0 <= q < LINES ==> Chain(links, action[q], chain[q]))
    && (forall q, i, r, j ::
      0 <= q < LINES && 0 <= i < |chain[q]| && 0 <= r < LINES && 0 <= j < |chain[r]| ==>
      chain[q][i] == chain[r][j] ==> q == r && i == j)
  }

  /** A member of one list is no member of another, nor twice in its own. */
  lemma KeptApart(links: Links, action: seq<Action?>, chain: seq<seq<Action>>, q: nat, r: nat)
    requires Lists(links, action, chain) && q < LINES && r < LINES
    ensures q != r ==> forall a :: a in chain[q] ==> a !in chain[r]
    ensures forall i, j :: 0 <= i < j < |chain[q]| ==> chain[q][i] != chain[q][j]
  {
  }

  /** The links once `act` stands behind the last member of `c`. */
  ghost function LinksGrown(links: Links, c: seq<Action>, act: Action): Links {
    if c == [] then links[act := null] else links[act := null][c[|c|-1] := act]
  }

  lemma ChainKept(links: Links, head: Action?, d: seq<Action>, c: seq<Action>, act: Action)
    requires Chain(links, head, d) && act !in links && forall a :: a in d ==> a !in c
    ensures Chain(LinksGrown(links, c, act), head, d)
  {
    forall i | 0 <= i < |d| ensures LinksGrown(links, c, act)[d[i]] == links[d[i]] {
      assert d[i] !in c && d[i] in links;
    }
  }

  lemma ChainExtended(links: Links, head: Action?, c: seq<Action>, act: Action)
    requires Chain(links, head, c) && act !in links
    requires forall i, j :: 0 <= i < j < |c| ==> c[i] != c[j]
    ensures Chain(LinksGrown(links, c, act), if c == [] then act else head, c + [act])
  {
  }

  /** Linking a fresh action behind the last one of line `irq` extends that list and no other. */
  lemma ChainsGrown(links: Links, action: seq<Action?>, chain: seq<seq<Action>>, irq: nat, act: Action)
    requires Lists(links, action, chain) && irq < LINES && act !in links
    ensures Lists(LinksGrown(links, chain[irq], act),
                  if chain[irq] == [] then action[irq := act] else action, chain[irq := chain[irq] + [act]])
  {
    var c := chain[irq];
    var links', chain' := LinksGrown(links, c, act), chain[irq := c + [act]];
    var action' := if c == [] then action[irq := act] else action;
    forall q | 0 <= q < LINES ensures Chain(links', action'[q], chain'[q]) {
      assert Chain(links, action[q], chain[q]);
      KeptApart(links, action, chain, q, irq);
      if q == irq {
        ChainExtended(links, action[q], c, act);
      } else {
        ChainKept(links, action[q], chain[q], c, act);
      }
    }
  }

  lemma LineChain(links: Links, action: seq<Action?>, chain: seq<seq<Action>>, irq: nat)
    requires Lists(links, action, chain) && irq < LINES
    ensures Chain(links, action[irq], chain[irq])
    ensures chain[irq] == [] <==> action[irq] == null
    ensures chain[irq] != [] ==> action[irq] == chain[irq][0]
  {
  }

  lemma ChainStep(links: Links, head: Action?, c: seq<Action>, i: nat)
    requires Chain(links, head, c) && i < |c|
    ensures c[i] in links && links[c[i]] == if i + 1 < |c| then c[i+1] else null
  {
  }

  /** What the log gains when every action of `c` runs once for line `irq`, in order. */
  ghost function AllRan(irq: nat, c: seq<Action>, seen: Bank): seq<Ran> {
    seq(|c|, i requires 0 <= i < |c| => Ran(irq, c[i], seen))
  }

  // ---------- a run of registrations ----------

  datatype Registration = Registration(irq: nat, action: Action)

  /** The actions a run registers for line `q`, in order. */
  function ActionsFor(run: seq<Registration>, q: nat): seq<Action> {
    if run == [] then []
    else
      var r := run[|run|-1];
      ActionsFor(run[..|run|-1], q) + if r.irq == q then [r.action] else []
  }

  lemma ActionsForNext(run: seq<Registration>, i: nat, q: nat)
    requires i < |run|
    ensures ActionsFor(run[..i+1], q) == ActionsFor(run[..i], q) + if run[i].irq == q then [run[i].action] else []
  {
    assert run[..i+1][..i] == run[..i];
  }

  lemma EmptyLists(action: seq<Action?>, chain: seq<seq<Action>>)
    requires |action| == |chain| == LINES
    requires forall q :: 0 <= q < LINES ==> action[q] == null && chain[q] == []
    ensures Lists(map[], action, chain)
  {
  }

  /** Handling a line with an action, or registering one more, keeps enabled lines and registrations together. */
  lemma EnabledStays(b: Bank, b': Bank, chain: seq<seq<Action>>, chain': seq<seq<Action>>, irq: nat)
    requires EnabledIffRegistered(b, chain) && Served(irq) && |chain'| == LINES
    requires OnlyLine(b, b', irq, true) || (EnablesKept(b, b') && chain[irq] != [])
    requires chain'[irq] != [] && forall q :: 0 <= q < LINES && q != irq ==> chain'[q] == chain[q]
    ensures EnabledIffRegistered(b', chain')
  {
    hide EnabledIn, Bit;
    forall q: nat | Served(q) ensures EnabledIn(b', q) <==> chain'[q] != [] {
      if OnlyLine(b, b', irq, true) {
        OnlyLineServed(b, b', irq, true, q);
      } else {
        SameEnables(b, b', q);
      }
    }
  }

  lemma AllKept(b: Bank)
    ensures RestKept(b, b) && EnablesKept(b, b)
  {
  }

  /** The registers `b` with polarity, edge and clear registers set, as `reset`, and then the cascade line
      enabled. */
  lemma OnlyCascade(b: Bank, reset: Bank, b': Bank)
    requires |b.board| == |reset.board| == 5 && reset.dma == b.dma
    requires forall m :: 0 <= m < 5 ==>
      reset.board[m] == b.board[m].(pol := 0xffffffff, edge := 0, clr := 0xffffffff)
    requires OnlyLine(reset, b', CASCADE, true) && RestKept(reset, b')
    ensures OnlyLine(b, b', CASCADE, true) && |b'.board| == 5
    ensures forall m :: 0 <= m < 5 ==>
      b'.board[m] == b.board[m].(pol := 0xffffffff, edge := 0, clr := 0xffffffff, en := b'.board[m].en)
  {
    hide Bit;
    assert forall m :: 0 <= m < 5 ==> reset.board[m].en == b.board[m].en;
  }

  lemma CascadeRegistered(b: Bank, b': Bank, chain: seq<seq<Action>>)
    requires |b.board| == |b'.board| == 5 && OnlyLine(b, b', CASCADE, true)
    requires |chain| == LINES && chain[CASCADE] != []
    requires forall q :: 0 <= q < LINES && q != CASCADE ==> chain[q] == []
    ensures EnabledIffRegistered(b', chain)
            <==> forall q: nat :: Served(q) && q != CASCADE ==> !EnabledIn(b, q)
  {
    hide Bit, EnabledIn, OnlyLine;
    forall q: nat | Served(q) ensures EnabledIn(b', q) <==> if q == CASCADE then true else EnabledIn(b, q) {
      OnlyLineServed(b, b', CASCADE, true, q);
    }
  }

  function Actions(run: seq<Registration>): set<Action> {
    set r | r in run :: r.action
  }

  lemma ActionsNext(run: seq<Registration>, i: nat)
    requires i < |run|
    requires forall j, k :: 0 <= j < k < |run| ==> run[j].action != run[k].action
    ensures Actions(run[..i+1]) == Actions(run[..i]) + {run[i].action} && Actions(run[..i]) <= Actions(run)
    ensures forall j :: i <= j < |run| ==> run[j].action !in Actions(run[..i])
  {
    assert run[..i+1] == run[..i] + [run[i]];
  }

  /** The lists of all lines before and after a run. */
  ghost predicate GrownBy(chain: seq<seq<Action>>, chain': seq<seq<Action>>, run: seq<Registration>) {
    |chain| == |chain'| == LINES && forall q :: 0 <= q < LINES ==> chain'[q] == chain[q] + ActionsFor(run, q)
  }

  lemma GrownByNext(chain: seq<seq<Action>>, chain': seq<seq<Action>>, run: seq<Registration>, i: nat)
    requires i < |run| && run[i].irq < LINES && GrownBy(chain, chain', run[..i])
    ensures GrownBy(chain, chain'[run[i].irq := chain'[run[i].irq] + [run[i].action]], run[..i+1])
  {
    hide ActionsFor;
    forall q | 0 <= q < LINES
      ensures ActionsFor(run[..i+1], q) == ActionsFor(run[..i], q) + if run[i].irq == q then [run[i].action] else []
    {
      ActionsForNext(run, i, q);
    }
  }

  /** After a run exactly those lines are enabled that were enabled before or got their first action in it. */
  ghost predicate EnabledByRun(b: Bank, b': Bank, chain: seq<seq<Action>>, run: seq<Registration>) {
    && |b.board| == |b'.board| == 5 && |chain| == LINES
    && forall q: nat :: Served(q) ==>
      (EnabledIn(b', q) <==> EnabledIn(b, q) || (chain[q] == [] && ActionsFor(run, q) != []))
  }

  lemma EnabledByNone(b: Bank, chain: seq<seq<Action>>)
    requires |b.board| == 5 && |chain| == LINES
    ensures EnabledByRun(b, b, chain, [])
  {
    hide EnabledIn;
  }

  /** One more registration, on a list that stands as the run so far left it. */
  lemma EnabledByNext(b: Bank, b1: Bank, b2: Bank, chain: seq<seq<Action>>, now: seq<Action>,
                      run: seq<Registration>, i: nat)
    requires i < |run| && Served(run[i].irq) && EnabledByRun(b, b1, chain, run[..i])
    requires now == chain[run[i].irq] + ActionsFor(run[..i], run[i].irq)
    requires if now == [] then OnlyLine(b1, b2, run[i].irq, true) else EnablesKept(b1, b2)
    ensures EnabledByRun(b, b2, chain, run[..i+1])
  {
    hide EnabledIn, ActionsFor;
    forall q: nat | Served(q)
      ensures EnabledIn(b2, q) <==> EnabledIn(b, q) || (chain[q] == [] && ActionsFor(run[..i+1], q) != [])
    {
      ActionsForNext(run, i, q);
      if now == [] {
        OnlyLineServed(b1, b2, run[i].irq, true, q);
      } else {
        SameEnables(b1, b2, q);
      }
    }
  }

  lemma GrownByAt(chain: seq<seq<Action>>, chain': seq<seq<Action>>, run: seq<Registration>, q: nat)
    requires GrownBy(chain, chain', run) && q < LINES
    ensures |chain| == |chain'| == LINES && chain'[q] == chain[q] + ActionsFor(run, q)
  {
  }

  lemma GrownByNone(chain: seq<seq<Action>>)
    requires |chain| == LINES
    ensures GrownBy(chain, chain, [])
  {
  }
}
