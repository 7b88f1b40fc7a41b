/** irq.c: the interrupt controllers, the chip and handler table, and the code that changes them. */
module Irq {
  import opened Bits
  import opened IrqTables

  class Controller {
    var regs: seq<IcRegs>
    var dma: DmaRegs
    var chip: seq<Chip>
    /** Whether `handle_irq` is `handle_level_irq`. */
    var level: seq<bool>
    var action: seq<Action?>
    ghost var chain: seq<seq<Action>>
    ghost var members: set<Action>
    ghost var log: seq<Ran>

    ghost predicate Shaped()
      reads this
    {
      |regs| == 5 && |chip| == |level| == |action| == |chain| == LINES
    }

    ghost function NextLinks(): Links
      reads `members, members
    {
      map a | a in members :: a.next
    }

    ghost predicate ListsOk()
      reads this, members
    {
      Shaped() && Lists(NextLinks(), action, chain)
    }

    function Registers(): Bank
      reads `regs, `dma
    {
      Bank(regs, dma)
    }

    predicate Enabled(irq: nat)
      reads `regs, `dma
      requires |regs| == 5 && Served(irq)
    {
      EnabledIn(Registers(), irq)
    }

    /** The chip and the flow handler of line `irq` are installed. */
    ghost predicate Installed(irq: nat)
      reads this
      requires Shaped() && irq < LINES
    {
      level[irq] && chip[irq] == if irq < BOARD_LINES then Board else Dma
    }

    ghost predicate AllInstalled()
      reads this
    {
      Shaped() && forall irq: nat :: Served(irq) ==> Installed(irq)
    }

    // ---------- the chips ----------

    method DisableBoard(irq: nat)
      requires |regs| == 5 && irq < BOARD_LINES
      modifies `regs
      ensures OnlyLine(old(Registers()), Registers(), irq, false) && RestKept(old(Registers()), Registers())
    {
      hide Bit, SetAt, ClearAt;
      var n, k := irq / 32, irq % 32;
      regs := regs[n := regs[n].(en := ClearAt(regs[n].en, k))];
      forall j: nat | j < 32 ensures Bit(regs[n].en, j) <==> j != k && Bit(old(regs)[n].en, j) {
        ClearBit(old(regs)[n].en, k, j);
      }
    }

    method EnableBoard(irq: nat)
      requires |regs| == 5 && irq < BOARD_LINES
      modifies `regs
      ensures OnlyLine(old(Registers()), Registers(), irq, true) && RestKept(old(Registers()), Registers())
    {
      hide Bit, SetAt, ClearAt;
      var n, k := irq / 32, irq % 32;
      regs := regs[n := regs[n].(en := SetAt(regs[n].en, k))];
      forall j: nat | j < 32 ensures Bit(regs[n].en, j) <==> j == k || Bit(old(regs)[n].en, j) {
        SetBit(old(regs)[n].en, k, j);
      }
    }

    method AckBoard(irq: nat)
      requires |regs| == 5 && irq < BOARD_LINES
      modifies `regs
      ensures OnlyAcked(old(Registers()), Registers(), irq) && EnablesKept(old(Registers()), Registers())
    {
      hide Bit, SetAt, ClearAt;
      var n, k := irq / 32, irq % 32;
      regs := regs[n := regs[n].(clr := SetAt(regs[n].clr, k))];
      forall j: nat | j < 32 ensures Bit(regs[n].clr, j) <==> j == k || Bit(old(regs)[n].clr, j) {
        SetBit(old(regs)[n].clr, k, j);
      }
    }

    method DisableDma(irq: nat)
      requires |regs| == 5 && DMA_BASE <= irq < DMA_BASE + DMA_COUNT
      modifies `dma
      ensures OnlyLine(old(Registers()), Registers(), irq, false) && RestKept(old(Registers()), Registers())
    {
      hide Bit, SetAt, ClearAt;
      if irq < DMA_BASE + 8 {
        var k := irq - DMA_BASE;
        dma := dma.(rdEn := ClearAt(dma.rdEn, k));
        forall j: nat | j < 32 ensures Bit(dma.rdEn, j) <==> j != k && Bit(old(dma).rdEn, j) {
          ClearBit(old(dma).rdEn, k, j);
        }
      } else {
        var k := irq - DMA_BASE - 8;
        dma := dma.(wrEn := ClearAt(dma.wrEn, k));
        forall j: nat | j < 32 ensures Bit(dma.wrEn, j) <==> j != k && Bit(old(dma).wrEn, j) {
          ClearBit(old(dma).wrEn, k, j);
        }
      }
    }

    method EnableDma(irq: nat)
      requires |regs| == 5 && DMA_BASE <= irq < DMA_BASE + DMA_COUNT
      modifies `dma
      ensures OnlyLine(old(Registers()), Registers(), irq, true) && RestKept(old(Registers()), Registers())
    {
      hide Bit, SetAt, ClearAt;
      if irq < DMA_BASE + 8 {
        var k := irq - DMA_BASE;
        dma := dma.(rdEn := SetAt(dma.rdEn, k));
        forall j: nat | j < 32 ensures Bit(dma.rdEn, j) <==> j == k || Bit(old(dma).rdEn, j) {
          SetBit(old(dma).rdEn, k, j);
        }
      } else {
        var k := irq - DMA_BASE - 8;
        dma := dma.(wrEn := SetAt(dma.wrEn, k));
        forall j: nat | j < 32 ensures Bit(dma.wrEn, j) <==> j == k || Bit(old(dma).wrEn, j) {
          SetBit(old(dma).wrEn, k, j);
        }
      }
    }

    method AckDma(irq: nat)
      requires |regs| == 5 && DMA_BASE <= irq < DMA_BASE + DMA_COUNT
      modifies `dma
      ensures OnlyAcked(old(Registers()), Registers(), irq) && EnablesKept(old(Registers()), Registers())
    {
      if irq < DMA_BASE + 8 {
        dma := dma.(rdIsr := Mask(irq - DMA_BASE));
      } else {
        dma := dma.(wrIsr := Mask(irq - DMA_BASE - 8));
      }
    }

    method MaskLine(irq: nat)
      requires Shaped() && Served(irq) && Installed(irq)
      modifies `regs, `dma
      ensures OnlyLine(old(Registers()), Registers(), irq, false) && RestKept(old(Registers()), Registers())
    {
      if chip[irq] == Board {
        DisableBoard(irq);
      } else {
        DisableDma(irq);
      }
    }

    method UnmaskLine(irq: nat)
      requires Shaped() && Served(irq) && Installed(irq)
      modifies `regs, `dma
      ensures OnlyLine(old(Registers()), Registers(), irq, true) && RestKept(old(Registers()), Registers())
    {
      if chip[irq] == Board {
        EnableBoard(irq);
      } else {
        EnableDma(irq);
      }
    }

    method AckLine(irq: nat)
      requires Shaped() && Served(irq) && Installed(irq)
      modifies `regs, `dma
      ensures OnlyAcked(old(Registers()), Registers(), irq) && EnablesKept(old(Registers()), Registers())
    {
      if chip[irq] == Board {
        AckBoard(irq);
      } else {
        AckDma(irq);
      }
    }

    // ---------- handling ----------

    /** `handle_IRQ_event`; the list must not be empty. */
    method HandleIrqEvent(irq: nat, first: Action)
      requires ListsOk() && irq < LINES && Served(irq) && action[irq] == first
      modifies `log
      ensures log == old(log) + AllRan(irq, chain[irq], Registers())
    {
      hide Lists, Chain;
      ghost var links, c, i := NextLinks(), chain[irq], 0;
      LineChain(links, action, chain, irq);
      ChainStep(links, first, c, 0);
      var cur: Action? := first;
      while true
        invariant 0 <= i < |c| && cur == c[i] && cur in members && NextLinks() == links
        invariant log == old(log) + AllRan(irq, c[..i], Registers())
        decreases |c| - i
      {
        log := log + [Ran(irq, cur, Registers())];
        ChainStep(links, first, c, i);
        assert links[c[i]] == cur.next;
        cur := cur.next;
        i := i + 1;
        if cur == null {
          break;
        }
        ChainStep(links, first, c, i);
      }
      assert c[..i] == c;
    }

    /** `handle_level_irq`: the line is masked and acknowledged while its handlers run, with the registers as
        `seen`, and unmasked after; no other enable bit changes. */
    method HandleLevelIrq(irq: nat) returns (ghost seen: Bank)
      requires ListsOk() && Served(irq) && Installed(irq) && chain[irq] != []
      modifies `regs, `dma, `log
      ensures ListsOk() && Cycled(old(Registers()), seen, Registers(), irq)
      ensures old(EnabledIffRegistered(Registers(), chain)) ==> EnabledIffRegistered(Registers(), chain)
      ensures log == old(log) + AllRan(irq, chain[irq], seen)
    {
      hide OnlyLine, RestKept, OnlyAcked, EnablesKept, EnabledIn, Lists;
      ghost var b0 := Registers();
      MaskLine(irq);
      ghost var b1 := Registers();
      AckLine(irq);
      seen := Registers();
      LineChain(NextLinks(), action, chain, irq);
      HandleIrqEvent(irq, action[irq]);
      UnmaskLine(irq);
      LevelCycle(b0, b1, seen, Registers(), irq);
      if EnabledIffRegistered(b0, chain) {
        EnabledStays(b0, Registers(), chain, chain, irq);
      }
    }

    // ---------- registration ----------

    /** The walk to the end of the list, and the store of the fresh action there. */
    method AppendAction(irq: nat, act: Action) returns (shared: bool)
      requires ListsOk() && irq < LINES && act !in members && act.next == null
      modifies `action, `chain, `members, members
      ensures ListsOk() && members == old(members) + {act}
      ensures chain == old(chain)[irq := old(chain)[irq] + [act]]
      ensures shared <==> old(chain)[irq] != []
    {
      hide Lists, Chain;
      ghost var links, c := NextLinks(), chain[irq];
      LineChain(links, action, chain, irq);
      ChainsGrown(links, action, chain, irq, act);
      var head := action[irq];
      shared := false;
      if head != null {
        var p: Action := head;
        ghost var i := 0;
        ChainStep(links, head, c, 0);
        while p.next != null
          invariant 0 <= i < |c| && p == c[i] && p in members
          decreases |c| - i
          modifies {}
        {
          ChainStep(links, head, c, i);
          p := p.next;
          i := i + 1;
          ChainStep(links, head, c, i);
        }
        ChainStep(links, head, c, i);
        assert p == c[|c|-1];
        p.next := act;
        shared := true;
      } else {
        action := action[irq := act];
      }
      chain := chain[irq := c + [act]];
      members := members + {act};
      assert NextLinks() == LinksGrown(links, c, act);
    }

    /** `setup_irq`: a fresh action goes to the end of its list; the first one of a line enables it. */
    method SetupIrq(irq: nat, act: Action)
      requires ListsOk() && Served(irq) && Installed(irq) && act !in members && act.next == null
      modifies this, members
      ensures ListsOk() && members == old(members) + {act}
      ensures chain == old(chain)[irq := old(chain)[irq] + [act]]
      ensures chip == old(chip) && level == old(level) && log == old(log)
      ensures old(AllInstalled()) ==> AllInstalled()
      ensures RestKept(old(Registers()), Registers())
      ensures if old(chain)[irq] == [] then OnlyLine(old(Registers()), Registers(), irq, true)
              else EnablesKept(old(Registers()), Registers())
      ensures old(EnabledIffRegistered(Registers(), chain)) ==> EnabledIffRegistered(Registers(), chain)
    {
      hide Lists, OnlyLine, RestKept, EnablesKept, EnabledIffRegistered;
      ghost var b, lists := Registers(), chain;
      var shared := AppendAction(irq, act);
      AllKept(b);
      if !shared {
        UnmaskLine(irq);
      }
      if EnabledIffRegistered(b, lists) {
        EnabledStays(b, Registers(), lists, chain, irq);
      }
    }

    /** Any run of registrations of distinct fresh actions. */
    method SetupRun(run: seq<Registration>)
      requires ListsOk() && AllInstalled()
      requires forall i :: 0 <= i < |run| ==>
        Served(run[i].irq) && run[i].action !in members && run[i].action.next == null
      requires forall i, j :: 0 <= i < j < |run| ==> run[i].action != run[j].action
      modifies this, members, Actions(run)
      ensures ListsOk() && AllInstalled() && log == old(log)
      ensures GrownBy(old(chain), chain, run) && members == old(members) + Actions(run)
      ensures EnabledByRun(old(Registers()), Registers(), old(chain), run)
      ensures RestKept(old(Registers()), Registers())
      ensures old(EnabledIffRegistered(Registers(), chain)) ==> EnabledIffRegistered(Registers(), chain)
    {
      hide Lists, EnabledIffRegistered, GrownBy, EnabledByRun, OnlyLine, EnablesKept;
      var i := 0;
      assert run[..0] == [];
      GrownByNone(chain);
      EnabledByNone(Registers(), chain);
      while i < |run|
        invariant 0 <= i <= |run|
        invariant ListsOk() && AllInstalled() && log == old(log)
        invariant members == old(members) + Actions(run[..i])
        invariant forall j :: i <= j < |run| ==> run[j].action.next == null
        invariant GrownBy(old(chain), chain, run[..i])
        invariant EnabledByRun(old(Registers()), Registers(), old(chain), run[..i])
        invariant RestKept(old(Registers()), Registers())
        invariant old(EnabledIffRegistered(Registers(), chain)) ==> EnabledIffRegistered(Registers(), chain)
      {
        GrownByNext(old(chain), chain, run, i);
        ActionsNext(run, i);
        ghost var b, now := Registers(), chain[run[i].irq];
        GrownByAt(old(chain), chain, run[..i], run[i].irq);
        SetupIrq(run[i].irq, run[i].action);
        EnabledByNext(old(Registers()), b, Registers(), old(chain), now, run, i);
        i := i + 1;
      }
      assert run[..i] == run;
    }

    // ---------- dispatch ----------

    /** The handlers of line `irq` ran, each once and in order, while it was masked and acknowledged. */
    twostate predicate Handled(irq: nat, seen: Bank)
      requires Served(irq)
      reads this, members
    {
      && ListsOk() && Cycled(old(Registers()), seen, Registers(), irq)
      && |old(chain)| == LINES && log == old(log) + AllRan(irq, old(chain)[irq], seen)
    }

    method DispatchDma() returns (ghost seen: Bank)
      requires ListsOk() && AllInstalled()
      requires DmaPending(dma).Line? ==> chain[DmaPending(dma).irq] != []
      modifies `regs, `dma, `log
      ensures match old(DmaPending(dma)) {
                case Line(q) => Served(q) && Handled(q, seen)
                case Nothing => regs == old(regs) && dma == old(dma) && log == old(log)
              }
      ensures |seen.board| == |regs| == 5
      ensures DmaRan(old(Registers()), seen, Registers(), chain, old(log), log)
      ensures old(EnabledIffRegistered(Registers(), chain)) ==> EnabledIffRegistered(Registers(), chain)
    {
      hide Cycled, BothHalves, Ffs, Lists, EnabledIffRegistered, StatusIn, DmaRan, AllRan;
      DmaPendingDecodes(Registers());
      seen := Registers();
      var irq := Ffs(BothHalves(dma.wrIsr, dma.rdIsr));
      if irq != 0 {
        seen := HandleLevelIrq(DMA_BASE + irq - 1);
        CycledShape(old(Registers()), seen, Registers(), DMA_BASE + irq - 1);
      }
      DmaByBits(old(Registers()), seen, Registers(), chain, old(log), log);
    }

    method DispatchBoard(n: nat) returns (ghost seen: Bank)
      requires ListsOk() && AllInstalled() && n < 5
      requires BoardPending(Registers(), n).Line? ==> chain[BoardPending(Registers(), n).irq] != []
      modifies `regs, `dma, `log
      ensures match old(BoardPending(Registers(), n)) {
                case Line(q) => Served(q) && Handled(q, seen)
                case Nothing => regs == old(regs) && dma == old(dma) && log == old(log)
              }
      ensures |seen.board| == |regs| == 5
      ensures forall k :: 0 <= k < 32 && Lowest(old(regs)[n].isr, k) && !(n == 1 && k == 10) ==>
        && log == old(log) + AllRan(32 * n + k, chain[32 * n + k], seen)
        && !Bit(seen.board[n].en, k) && Bit(seen.board[n].clr, k) && Bit(regs[n].en, k)
      ensures n == 1 && Lowest(old(regs)[1].isr, 10) ==>
        DmaRan(old(Registers()), seen, Registers(), chain, old(log), log)
      ensures old(EnabledIffRegistered(Registers(), chain)) ==> EnabledIffRegistered(Registers(), chain)
    {
      hide Cycled, DmaPending, Ffs, Lists, EnabledIffRegistered, StatusIn, DmaRan, AllRan, Bit, Mask;
      PendingDecodes(Registers(), n);
      seen := Registers();
      var irq := Ffs(regs[n].isr);
      if irq == 0 {
      } else if n == 1 && irq == 11 {
        seen := DispatchDma();
      } else {
        seen := HandleLevelIrq(n * 32 + irq - 1);
      }
      BoardByBits(old(Registers()), seen, Registers(), n);
    }

    // ---------- start-up ----------

    /** The tables as they are before any code has run; the registers are whatever the hardware left. */
    constructor (regs: seq<IcRegs>, dma: DmaRegs)
      requires |regs| == 5
      ensures ListsOk() && members == {} && log == []
      ensures this.regs == regs && this.dma == dma
      ensures forall q :: 0 <= q < LINES ==> chain[q] == []
    {
      this.regs, this.dma := regs, dma;
      chip, level, action := seq(LINES, _ => NoChip), seq(LINES, _ => false), seq(LINES, _ => null);
      chain, members, log := seq(LINES, _ => []), {}, [];
      new;
      EmptyLists(action, chain);
      assert NextLinks() == map[];
    }

    method InitBoardLines()
      requires Shaped()
      modifies `chip, `level
      ensures Shaped() && forall q: nat :: q < LINES ==>
        if q < BOARD_LINES then Installed(q) else chip[q] == old(chip)[q] && level[q] == old(level)[q]
    {
      for i := 0 to BOARD_LINES
        invariant Shaped() && forall q: nat :: q < LINES ==>
          if q < i then Installed(q) else chip[q] == old(chip)[q] && level[q] == old(level)[q]
      {
        chip, level := chip[i := Board], level[i := true];
      }
    }

    method InitDmaLines()
      requires Shaped()
      modifies `chip, `level
      ensures Shaped() && forall q: nat :: q < LINES ==>
        if DMA_BASE <= q < DMA_BASE + DMA_COUNT then Installed(q)
        else chip[q] == old(chip)[q] && level[q] == old(level)[q]
    {
      for irq := DMA_BASE to DMA_BASE + DMA_COUNT
        invariant Shaped() && forall q: nat :: q < LINES ==>
          if DMA_BASE <= q < irq then Installed(q) else chip[q] == old(chip)[q] && level[q] == old(level)[q]
      {
        chip, level := chip[irq := Dma], level[irq := true];
      }
    }

    method InitRegisters()
      requires |regs| == 5
      modifies `regs
      ensures |regs| == 5
      ensures forall m :: 0 <= m < 5 ==> regs[m] == old(regs)[m].(pol := 0xffffffff, edge := 0, clr := 0xffffffff)
    {
      for i := 0 to 5
        invariant |regs| == 5 && forall m :: 0 <= m < 5 ==>
          regs[m] == if m < i then old(regs)[m].(pol := 0xffffffff, edge := 0, clr := 0xffffffff) else old(regs)[m]
      {
        regs := regs[i := regs[i].(pol := 0xffffffff)];
        regs := regs[i := regs[i].(edge := 0)];
        regs := regs[i := regs[i].(clr := 0xffffffff)];
      }
    }

    /** `init_IRQ`: every line a dispatcher can produce gets its chip and handler; the cascade line gets
        its action and is enabled; every other enable bit stays as it was found. */
    method InitIrq(cascade: Action)
      requires ListsOk() && members == {} && cascade.next == null
      requires forall q :: 0 <= q < LINES ==> chain[q] == []
      modifies this
      ensures ListsOk() && AllInstalled() && members == {cascade} && log == old(log)
      ensures forall q :: 0 <= q < 160 ==> level[q] && chip[q] == Board
      ensures forall q :: 168 <= q < 184 ==> level[q] && chip[q] == Dma
      ensures forall q :: 0 <= q < LINES ==> chain[q] == if q == 42 then [cascade] else []
      ensures OnlyLine(old(Registers()), Registers(), 42, true)
      ensures forall m :: 0 <= m < 5 ==>
        regs[m] == old(regs)[m].(pol := 0xffffffff, edge := 0, clr := 0xffffffff, en := regs[m].en)
      ensures EnabledIffRegistered(Registers(), chain)
              <==> forall q: nat :: Served(q) && q != CASCADE ==> !old(Enabled(q))
    {
      hide Lists, Chain, Bit, OnlyLine, RestKept, EnablesKept, EnabledIn, EnabledIffRegistered;
      ghost var b := Registers();
      InitRegisters();
      ghost var reset := Registers();
      InitBoardLines();
      InitDmaLines();
      SetupIrq(CASCADE, cascade);
      OnlyCascade(b, reset, Registers());
      CascadeRegistered(b, Registers(), chain);
    }
  }
}
