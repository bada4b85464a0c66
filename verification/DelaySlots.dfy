/** Delay slots: the two program counters and two flags of the step loop implement a machine that
    executes a branch together with its delay slot, and has one program counter. */
module DelaySlots {
  import opened Words
  import opened Memory
  import opened Cpu
  import opened CachedRuns

  predicate Settled(s: Arch) {
    !s.delay && !s.annul
  }

  /** Between a branch and its target, and between an exception and its vector, the program
      counters are not consecutive; otherwise they are. */
  predicate Sequential(s: Arch) {
    Settled(s) ==> s.pcNext == Wrap(s.pc + 4)
  }

  function Settle(s: Arch, pc: Word): Arch {
    s.(pc := pc, pcNext := Wrap(pc + 4), delay := false, annul := false)
  }

  // ---------------------------------------------------------------------------
  // Branches, as the architecture defines them

  predicate IsBranch(i: Word) {
    var op := Opcode(i);
    (op == SPECIAL && (Funct(i) == JR || Funct(i) == JALR)) ||
    (op == REGIMM && (Rt(i) == BLTZ || Rt(i) == BGEZ || Rt(i) == BLTZAL || Rt(i) == BGEZAL)) ||
    J <= op <= BGTZ
  }

  predicate Taken(r: Regs, i: Word) {
    var op := Opcode(i);
    if op == REGIMM then (Rt(i) == BLTZ || Rt(i) == BLTZAL) == (Signed(r[Rs(i)]) < 0)
    else if op == BEQ then r[Rs(i)] == r[Rt(i)]
    else if op == BNE then r[Rs(i)] != r[Rt(i)]
    else if op == BLEZ then Signed(r[Rs(i)]) <= 0
    else if op == BGTZ then Signed(r[Rs(i)]) > 0
    else true
  }

  /** A jump stays in the 256 MiB region of its delay slot; a branch is relative to it. */
  function Target(r: Regs, at: Word, i: Word): Word {
    var op := Opcode(i);
    if op == SPECIAL then r[Rs(i)]
    else if op == J || op == JAL then Wrap(Wrap(at + 4) / 0x1000_0000 * 0x1000_0000 + 4 * Offset(i))
    else Wrap(at + 4 + 4 * SImm(i))
  }

  /** The register a branch writes; 0 for none. */
  function LinkRegister(i: Word): RegNo {
    var op := Opcode(i);
    if op == SPECIAL then Rd(i)
    else if op == JAL || (op == REGIMM && (Rt(i) == BLTZAL || Rt(i) == BGEZAL)) then 31
    else 0
  }

  /** Every link is the address after the delay slot. (JR, which has no destination, would write
      the simulator's filler to a nonzero one.) */
  function LinkValue(at: Word, i: Word): Word {
    if Opcode(i) == SPECIAL && Funct(i) == JR then FILLER else Wrap(at + 8)
  }

  function Linked(r: Regs, at: Word, i: Word): Regs {
    if LinkRegister(i) == 0 then r else r[LinkRegister(i) := LinkValue(at, i)]
  }

  function NextPc(r: Regs, at: Word, i: Word): Word {
    if Taken(r, i) then Target(r, at, i) else Wrap(at + 8)
  }

  // ---------------------------------------------------------------------------
  // The reference machine: one program counter, branches and their delay slots in one step

  /** One reference step, and the turns of the loop it takes. */
  datatype Macro = Macro(result: Result, turns: nat)

  /** The state after an instruction that is not a branch: at the given address, unless an
      exception or its return goes elsewhere, which costs an annulled turn. */
  function After(r: Result, next: Word, turns: nat): Macro {
    match r
    case Stop(why) => Macro(Stop(why), turns)
    case Go(s) => if s.annul then Macro(Go(Settle(s, s.pcNext)), turns + 1) else Macro(Go(Settle(s, next)), turns)
  }

  function BranchAndSlot(s: Arch, i: Word): Macro {
    match Load(s.mem, Wrap(s.pc + 4), 4, true)
    case Fault(why) => Macro(Stop(why), 2)
    case Value(j) =>
      var s1 := Settle(s.(r := Linked(s.r, s.pc, i)), Wrap(s.pc + 4)).(delay := true);
      After(Exec(s1, j, 0), NextPc(s.r, s.pc, i), 2)
  }

  function MacroStep(s: Arch): Macro {
    match Load(s.mem, s.pc, 4, true)
    case Fault(why) => Macro(Stop(why), 1)
    case Value(i) =>
      if !IsBranch(i) then After(Exec(s, i, 0), Wrap(s.pc + 4), 1)
      else if !Probes(i) then BranchAndSlot(s, i)
      else
        match Load(s.mem, Wrap(s.pc + 8), 4, true)
        case Fault(why) => Macro(Stop(why), 1)
        case Value(probe) => if probe == 0 then Macro(Stop(Exit), 1) else BranchAndSlot(s, i)
  }

  /** The word at the program counter is a branch with another one in its delay slot. */
  predicate BranchInSlot(s: Arch) {
    var i, j := Load(s.mem, s.pc, 4, true), Load(s.mem, Wrap(s.pc + 4), 4, true);
    i.Value? && IsBranch(i.w) && j.Value? && IsBranch(j.w)
  }

  function MacroRun(n: nat, s: Arch): Macro {
    if n == 0 then Macro(Go(s), 0)
    else
      match MacroStep(s)
      case Macro(Stop(why), t) => Macro(Stop(why), t)
      case Macro(Go(s'), t) => var rest := MacroRun(n - 1, s'); Macro(rest.result, t + rest.turns)
  }

  predicate NeverBranchInSlot(n: nat, s: Arch) {
    n == 0 || (!BranchInSlot(s) && (MacroStep(s).result.Go? ==> NeverBranchInSlot(n - 1, MacroStep(s).result.s)))
  }

  // ---------------------------------------------------------------------------
  // One turn of the loop

  /** After every turn, from any state, the program counters are in order. */
  lemma TurnIsSequential(s: Arch)
    requires StepDirect(s).Go?
    ensures Sequential(StepDirect(s).s)
  {
    hide Load, Probes;
    var f := FetchDirect(s);
    ExecIsSequential(s, f.i, f.probe);
  }

  lemma ExecIsSequential(s: Arch, i: Word, probe: Word)
    requires Exec(s, i, probe).Go?
    ensures Sequential(Exec(s, i, probe).s)
  {
    OnlyBranchesDelay(Advance(s), s.pc, s.delay, i, OperandS(s.r, i), OperandT(s.r, i), probe);
  }

  /** Execution leaves pc alone; pcNext changes only by a branch, which announces a delay slot, or
      by an exception or its return, which annuls the next turn. */
  lemma OnlyBranchesDelay(s: Arch, at: Word, slot: bool, i: Word, a: Word, b: Word, probe: Word)
    requires Settled(s) && Execute(s, at, slot, i, a, b, probe).Done?
    ensures var s' := Execute(s, at, slot, i, a, b, probe).s;
            s'.pc == s.pc && (s'.delay <==> IsBranch(i)) && !(s'.delay && s'.annul) &&
            (Settled(s') ==> s'.pcNext == s.pcNext)
  {
    hide Shl, Shr, Sar, And, Or, Xor, Not, Wrap, Signed, TakenForOverflow, TruncDiv, TruncRem;
    hide Rd, Sa, Rt, UImm, SImm, Load, LoadResult, RegionTarget, Store, WordBase, MergeLeft, MergeRight;
    var op := Opcode(i);
    if op == SPECIAL {
      hide Opcode;
    } else if op == REGIMM {
    } else if op == CP0 {
    } else {
      hide ExecuteSpecial, ExecuteRegimm, ExecuteCp0;
    }
  }

  /** The same outcome with other program counters, unless an exception or its return has set
      pcNext. */
  predicate SameButPc(o: Out, o': Out, p: Word, q: Word) {
    match o
    case Halted(why) => o' == o
    case Done(s, wbr, wbv) =>
      o'.Done? && o'.wbr == wbr && (wbr != 0 ==> o'.wbv == wbv) &&
      o'.s == if s.annul then s.(pc := p) else s.(pc := p, pcNext := q)
  }

  lemma SpecialIgnoresPc(s: Arch, at: Word, slot: bool, i: Word, a: Word, b: Word, p: Word, q: Word)
    requires Settled(s) && Funct(i) != JR && Funct(i) != JALR
    ensures SameButPc(ExecuteSpecial(s, at, slot, i, a, b),
                      ExecuteSpecial(s.(pc := p, pcNext := q), at, slot, i, a, b), p, q)
  {
    hide Shl, Shr, Sar, And, Or, Xor, Not, Wrap, Signed, TakenForOverflow, TruncDiv, TruncRem, Rd, Sa, Funct;
  }

  lemma MemoryIgnoresPc(s: Arch, i: Word, address: Word, b: Word, p: Word, q: Word)
    requires Settled(s)
    ensures IsLoad(Opcode(i)) ==>
      SameButPc(ExecuteLoad(s, i, address, b), ExecuteLoad(s.(pc := p, pcNext := q), i, address, b), p, q)
    ensures IsStore(Opcode(i)) ==>
      SameButPc(ExecuteStore(s, i, address, b), ExecuteStore(s.(pc := p, pcNext := q), i, address, b), p, q)
  {
    hide Load, LoadResult, Store, WordBase, MergeLeft, MergeRight, Rt;
  }

  /** An instruction that is not a branch does not look at the program counters. */
  lemma IgnoresPc(s: Arch, at: Word, slot: bool, i: Word, a: Word, b: Word, probe: Word, p: Word, q: Word)
    requires Settled(s) && !IsBranch(i)
    ensures SameButPc(Execute(s, at, slot, i, a, b, probe),
                      Execute(s.(pc := p, pcNext := q), at, slot, i, a, b, probe), p, q)
  {
    hide ExecuteSpecial, ExecuteLoad, ExecuteStore, And, Or, Xor, Wrap, Signed, UImm, SImm;
    var op := Opcode(i);
    if op == SPECIAL {
      SpecialIgnoresPc(s, at, slot, i, a, b, p, q);
    } else {
      MemoryIgnoresPc(s, i, Wrap(a + SImm(i)), b, p, q);
    }
  }

  // ---------------------------------------------------------------------------
  // One reference step

  /** An annulled turn only moves on to where pcNext points. */
  lemma AnnulledTurn(s: Arch)
    requires s.annul
    ensures StepDirect(s) == Go(Settle(s, s.pcNext))
  {
    assert Opcode(0) == SPECIAL && Funct(0) == SLL && Rd(0) == 0;
  }

  /** A branch that is not in a delay slot writes its link, announces the slot, and points pcNext
      at its target or past the slot. */
  lemma BranchTurn(s: Arch, i: Word, probe: Word)
    requires Settled(s) && Sequential(s) && IsBranch(i)
    requires !(Probes(i) && probe == 0)
    ensures Exec(s, i, probe) ==
            Go(Settle(s.(r := Linked(s.r, s.pc, i)), Wrap(s.pc + 4)).(pcNext := NextPc(s.r, s.pc, i), delay := true))
  {
    hide Execute, Linked, NextPc, Wrap;
    WrapDrop(s.pc + 4, 4);
    BranchExecutes(Advance(s), s.pc, s.delay, i, OperandS(s.r, i), OperandT(s.r, i), probe);
    assert Linked(s.r, s.pc, i) == if LinkRegister(i) == 0 then s.r else s.r[LinkRegister(i) := LinkValue(s.pc, i)] by {
      LinkedIs(s.r, s.pc, i);
    }
  }

  lemma LinkedIs(r: Regs, at: Word, i: Word)
    ensures Linked(r, at, i) == if LinkRegister(i) == 0 then r else r[LinkRegister(i) := LinkValue(at, i)]
  {
  }

  /** What executing a branch amounts to, before the link is written back. */
  predicate BranchOutcome(o: Out, s: Arch, at: Word, i: Word) {
    o.Done? && o.s == Jump(s, NextPc(s.r, at, i)) && o.wbr == LinkRegister(i) &&
    (o.wbr != 0 ==> o.wbv == LinkValue(at, i))
  }

  lemma BranchExecutes(s: Arch, at: Word, slot: bool, i: Word, a: Word, b: Word, probe: Word)
    requires IsBranch(i) && !(Probes(i) && probe == 0)
    requires s.pc == Wrap(at + 4) && s.pcNext == Wrap(at + 8)
    requires a == OperandS(s.r, i) && b == OperandT(s.r, i)
    ensures BranchOutcome(Execute(s, at, slot, i, a, b, probe), s, at, i)
  {
    BranchOperands(s.r, i);
    hide UsesRs, UsesRt, OperandS, OperandT, And, Or, Wrap, SImm, Signed, Offset;
    hide ExecuteSpecial, ExecuteRegimm, BranchOutcome;
    var op := Opcode(i);
    if op == SPECIAL {
      RegisterJumpExecutes(s, at, slot, i, a, b);
    } else if op == REGIMM {
      SignBranchExecutes(s, at, i, a);
    } else if op == J || op == JAL {
      JumpExecutes(s, at, slot, i, a, b, probe);
    } else {
      CompareBranchExecutes(s, at, slot, i, a, b, probe);
    }
  }

  lemma RegisterJumpExecutes(s: Arch, at: Word, slot: bool, i: Word, a: Word, b: Word)
    requires Opcode(i) == SPECIAL && (Funct(i) == JR || Funct(i) == JALR)
    requires s.pcNext == Wrap(at + 8) && a == s.r[Rs(i)]
    ensures BranchOutcome(ExecuteSpecial(s, at, slot, i, a, b), s, at, i)
  {
    hide Wrap, Opcode, Rs, Rd;
  }

  lemma SignBranchExecutes(s: Arch, at: Word, i: Word, a: Word)
    requires Opcode(i) == REGIMM && IsBranch(i)
    requires s.pc == Wrap(at + 4) && s.pcNext == Wrap(at + 8) && a == s.r[Rs(i)]
    ensures BranchOutcome(ExecuteRegimm(s, i, a), s, at, i)
  {
    WrapDrop(at + 4, 4 * SImm(i));
    hide Wrap, Opcode, Rs, Signed, SImm;
  }

  lemma JumpExecutes(s: Arch, at: Word, slot: bool, i: Word, a: Word, b: Word, probe: Word)
    requires Opcode(i) == J || Opcode(i) == JAL
    requires s.pc == Wrap(at + 4) && s.pcNext == Wrap(at + 8)
    ensures BranchOutcome(Execute(s, at, slot, i, a, b, probe), s, at, i)
  {
    RegionOf(s.pc, Offset(i));
    hide And, Or, Wrap, Offset, Opcode;
  }

  lemma CompareBranchExecutes(s: Arch, at: Word, slot: bool, i: Word, a: Word, b: Word, probe: Word)
    requires BEQ <= Opcode(i) <= BGTZ && !(Probes(i) && probe == 0)
    requires s.pc == Wrap(at + 4) && s.pcNext == Wrap(at + 8)
    requires a == s.r[Rs(i)] && (Opcode(i) <= BNE ==> b == s.r[Rt(i)])
    ensures BranchOutcome(Execute(s, at, slot, i, a, b, probe), s, at, i)
  {
    WrapDrop(at + 4, 4 * SImm(i));
    hide Wrap, Opcode, Rs, Rt, Signed, SImm, ExecuteSpecial, ExecuteRegimm;
  }

  lemma BranchOperands(r: Regs, i: Word)
    requires IsBranch(i)
    ensures Opcode(i) != J && Opcode(i) != JAL ==> OperandS(r, i) == r[Rs(i)]
    ensures Opcode(i) == BEQ || Opcode(i) == BNE ==> OperandT(r, i) == r[Rt(i)]
  {
  }

  /** Masking the top four bits and or-ing the offset in is the sum of region and offset. */
  lemma RegionOf(pc: Word, o: Word)
    requires o < 0x400_0000
    ensures Or(And(pc, 0xF000_0000), 4 * o) == Wrap(pc / 0x1000_0000 * 0x1000_0000 + 4 * o)
  {
    hide Bits, Pow2;
    Pow2Values();
    AndCommutes(32, pc, 0xF000_0000);
    AndHighMask(32, 28, pc);
    var h := pc / 0x1000_0000;
    assert And(pc, 0xF000_0000) == h * 0x1000_0000;
    OrDisjoint(32, 28, h, 4 * o);
  }

  /** A turn that does not execute a branch, with pcNext elsewhere: the same effect, going there. */
  lemma PlainTurn(s: Arch, j: Word, t: Word)
    requires !IsBranch(j) && !s.annul
    ensures var e, e' := Exec(s, j, 0), Exec(s.(pcNext := t), j, 0);
            match e
            case Stop(why) => e' == e
            case Go(s1) => !s1.delay && e' == Go(if s1.annul then s1.(pc := t) else Settle(s1, t))
  {
    var n, n' := Advance(s), Advance(s.(pcNext := t));
    var a, b := OperandS(s.r, j), OperandT(s.r, j);
    hide Execute, OperandS, OperandT, IsBranch;
    IgnoresPc(n, s.pc, s.delay, j, a, b, 0, n'.pc, n'.pcNext);
    if Execute(n, s.pc, s.delay, j, a, b, 0).Done? {
      OnlyBranchesDelay(n, s.pc, s.delay, j, a, b, 0);
    }
  }

  lemma ProbedIsBranch(i: Word)
    ensures Probes(i) ==> IsBranch(i)
  {
    assert Opcode(ENDLESS_LOOP) == BEQ;
  }

  /** Turns up to the end of one instruction that is not a branch. */
  lemma PlainRefines(s: Arch, s0: Arch, j: Word, t: Word, turns: nat)
    requires !s.annul && s.pcNext == t && s0 == s.(pcNext := s0.pcNext)
    requires FetchDirect(s) == Ready(j, 0) && !IsBranch(j) && turns >= 1
    ensures var m := After(Exec(s0, j, 0), t, turns);
            turns <= m.turns && RunDirect(m.turns - turns + 1, s) == m.result &&
            (m.result.Go? ==> Settled(m.result.s) && Sequential(m.result.s))
  {
    hide Exec, FetchDirect, IsBranch;
    PlainTurn(s0, j, t);
    assert s0.(pcNext := t) == s;
    assert StepDirect(s) == Exec(s, j, 0);
    RunOne(s);
    var m := After(Exec(s0, j, 0), t, turns);
    if Exec(s0, j, 0).Go? && Exec(s0, j, 0).s.annul {
      var s1 := Exec(s, j, 0).s;
      AnnulledTurn(s1);
      RunOne(s1);
      RunOneMore(1, s);
      assert m.turns - turns + 1 == 2;
    } else {
      assert m.turns - turns + 1 == 1;
    }
  }

  lemma RunOne(s: Arch)
    ensures RunDirect(1, s) == StepDirect(s)
  {
    hide StepDirect;
    if StepDirect(s).Go? {
      assert RunDirect(0, StepDirect(s).s) == Go(StepDirect(s).s);
    }
  }

  lemma RunOneMore(k: nat, s: Arch)
    requires StepDirect(s).Go?
    ensures RunDirect(k + 1, s) == RunDirect(k, StepDirect(s).s)
  {
  }

  lemma SlotRefines(s: Arch, i: Word, probe: Word)
    requires Settled(s) && Sequential(s) && !BranchInSlot(s)
    requires FetchDirect(s) == Ready(i, probe) && IsBranch(i) && !(Probes(i) && probe == 0)
    ensures var m := BranchAndSlot(s, i);
            RunDirect(m.turns, s) == m.result &&
            (m.result.Go? ==> Settled(m.result.s) && Sequential(m.result.s))
  {
    hide Exec, Linked, NextPc, IsBranch, After, Probes, Load;
    BranchTurn(s, i, probe);
    FetchedWord(s);
    var s1 := StepDirect(s).s;
    match Load(s.mem, Wrap(s.pc + 4), 4, true)
    case Fault(_) =>
      assert RunDirect(2, s) == RunDirect(1, s1);
    case Value(j) =>
      var s0 := Settle(s.(r := Linked(s.r, s.pc, i)), Wrap(s.pc + 4)).(delay := true);
      ProbedIsBranch(j);
      PlainRefines(s1, s0, j, NextPc(s.r, s.pc, i), 2);
      RunOneMore(BranchAndSlot(s, i).turns - 1, s);
  }

  lemma FetchedWord(s: Arch)
    requires FetchDirect(s).Ready? && !s.annul
    ensures Load(s.mem, s.pc, 4, true) == Value(FetchDirect(s).i)
  {
  }

  /** One reference step is that many turns of the loop. */
  lemma MacroRefines(s: Arch)
    requires Settled(s) && Sequential(s) && !BranchInSlot(s)
    ensures RunDirect(MacroStep(s).turns, s) == MacroStep(s).result
    ensures MacroStep(s).result.Go? ==> Settled(MacroStep(s).result.s) && Sequential(MacroStep(s).result.s)
  {
    hide Exec, IsBranch, BranchAndSlot, After, BranchInSlot;
    match Load(s.mem, s.pc, 4, true)
    case Fault(_) =>
    case Value(i) =>
      ProbedIsBranch(i);
      if !IsBranch(i) {
        PlainRefines(s, s, i, Wrap(s.pc + 4), 1);
      } else {
        ProbeIsTwoOn(s);
        if FetchDirect(s).Ready? && !(Probes(i) && FetchDirect(s).probe == 0) {
          SlotRefines(s, i, FetchDirect(s).probe);
        } else if FetchDirect(s).Ready? {
          EndOfProgram(s);
        }
      }
  }

  lemma ProbeIsTwoOn(s: Arch)
    requires Settled(s) && Sequential(s)
    ensures ProbeAddress(s) == Wrap(s.pc + 8)
  {
    WrapDrop(s.pc + 4, 4);
  }

  lemma EndOfProgram(s: Arch)
    ensures Exec(s, ENDLESS_LOOP, 0) == Stop(Exit)
  {
    assert Opcode(ENDLESS_LOOP) == BEQ;
  }

  lemma {:induction false} RunSplits(m: nat, n: nat, s: Arch)
    ensures RunDirect(m + n, s) ==
            match RunDirect(m, s) case Stop(why) => Stop(why) case Go(s') => RunDirect(n, s')
  {
    hide StepDirect;
    if m == 0 {
    } else {
      match StepDirect(s)
      case Stop(_) =>
      case Go(s') => RunSplits(m - 1, n, s');
    }
  }

  /** Over every run without a branch in a delay slot, the loop's state after the turns of n
      reference steps is the reference machine's. */
  lemma {:induction false} LoopRefinesReference(n: nat, s: Arch)
    requires Settled(s) && Sequential(s) && NeverBranchInSlot(n, s)
    ensures RunDirect(MacroRun(n, s).turns, s) == MacroRun(n, s).result
  {
    hide MacroStep, StepDirect, BranchInSlot;
    if n == 0 {
    } else {
      var m := MacroStep(s);
      MacroRefines(s);
      if m.result.Go? {
        LoopRefinesReference(n - 1, m.result.s);
        RunSplits(m.turns, MacroRun(n - 1, m.result.s).turns, s);
      }
    }
  }

  /** Spelled out for one branch: it executes A and A + 4 and goes on at its target or at A + 8,
      with A + 8 in its link register. */
  lemma BranchExecutesSlotThenTarget(s: Arch, i: Word, s1: Arch, j: Word, s2: Arch)
    requires Settled(s) && Sequential(s) && !Probes(i) && IsBranch(i) && !IsBranch(j)
    requires FetchDirect(s) == Ready(i, 0) && StepDirect(s) == Go(s1)
    requires FetchDirect(s1) == Ready(j, 0) && StepDirect(s1) == Go(s2) && !s2.annul
    ensures s1.pc == Wrap(s.pc + 4) && s1.r == Linked(s.r, s.pc, i)
    ensures s2.pc == NextPc(s.r, s.pc, i) && s2.pcNext == Wrap(s2.pc + 4) && Settled(s2)
  {
    hide Exec, Linked, NextPc, IsBranch, FetchDirect, Probes;
    BranchTurn(s, i, 0);
    PlainTurn(s1, j, s1.pcNext);
    assert s1.(pcNext := s1.pcNext) == s1;
  }
}
