/** Breakpoint exceptions: BREAK enters the handler, ERET returns, and the program goes on where it
    was interrupted. */
module Exceptions {
  import opened Words
  import opened Memory
  import opened Cpu
  import opened CachedRuns
  import opened DelaySlots

  const ERET: Word := 0x4200_0018

  predicate IsBreak(i: Word) {
    Opcode(i) == SPECIAL && Funct(i) == BREAK
  }

  /** The handler at the breakpoint vector does nothing but return. */
  predicate ReturnsAtOnce(m: Mem) {
    Load(m, BREAK_VECTOR, 4, true) == Value(ERET)
  }

  /** The state the handler starts in. */
  function Interrupted(s: Arch, epc: Word, bd: bool): Arch {
    Settle(s.(cp0 := s.cp0[CP0_EPC := epc], cause := Cause(EXC_BP, bd), status := s.status.(exl := true)), BREAK_VECTOR)
  }

  /** The state it returns to: with erl clear, where EPC says. */
  function Returned(s: Arch): Arch {
    if s.status.erl then Settle(s.(status := s.status.(erl := false)), s.cp0[CP0_ERROREPC])
    else Settle(s.(status := s.status.(exl := false)), s.cp0[CP0_EPC])
  }

  lemma BreakExec(s: Arch, i: Word)
    requires IsBreak(i)
    ensures var epc := if s.delay then Wrap(s.pc - 4) else s.pc;
            Exec(s, i, 0) == Go(Advance(s).(cp0 := s.cp0[CP0_EPC := epc], cause := Cause(EXC_BP, s.delay),
                                            status := s.status.(exl := true), pcNext := BREAK_VECTOR, annul := true))
  {
    hide UsesRs, UsesRt;
  }

  lemma EretExec(s: Arch)
    ensures Exec(s, ERET, 0) ==
            Go(Advance(s).(pcNext := s.cp0[if s.status.erl then CP0_ERROREPC else CP0_EPC], annul := true,
                           status := if s.status.erl then s.status.(erl := false) else s.status.(exl := false)))
  {
    hide UsesRs, UsesRt;
    EretFields();
  }

  lemma EretFields()
    ensures Opcode(ERET) == CP0 && Rs(ERET) == 16 && Rt(ERET) == 0 && Funct(ERET) == C0_ERET
    ensures !IsBranch(ERET)
  {
  }

  lemma BreakIsPlain(i: Word)
    requires IsBreak(i)
    ensures !IsBranch(i)
  {
  }

  lemma EretMacro(s: Arch)
    requires Load(s.mem, s.pc, 4, true) == Value(ERET)
    ensures MacroStep(s) == Macro(Go(Returned(s)), 2)
  {
    hide Exec, Load, IsBranch;
    EretExec(s);
    EretFields();
  }

  lemma BreakMacro(s: Arch, i: Word)
    requires Settled(s) && IsBreak(i) && Load(s.mem, s.pc, 4, true) == Value(i)
    ensures MacroStep(s) == Macro(Go(Interrupted(s, s.pc, false)), 2)
  {
    hide Exec, Load, IsBranch;
    BreakExec(s, i);
    BreakIsPlain(i);
  }

  /** The branch at `at` is not taken for the end of the program: if it is the branch to itself, the
      word two places on is mapped and not 0. */
  predicate GoesOn(m: Mem, at: Word, b: Word) {
    Probes(b) ==>
      var probe := Load(m, Wrap(at + 8), 4, true);
      probe.Value? && probe.w != 0
  }

  lemma SlotBreakMacro(s: Arch, b: Word, i: Word)
    requires Settled(s) && IsBranch(b) && GoesOn(s.mem, s.pc, b) && IsBreak(i)
    requires Load(s.mem, s.pc, 4, true) == Value(b) && Load(s.mem, Wrap(s.pc + 4), 4, true) == Value(i)
    ensures MacroStep(s) == Macro(Go(Interrupted(s.(r := Linked(s.r, s.pc, b)), s.pc, true)), 3)
  {
    hide Exec, Load, IsBranch, Linked, NextPc, Probes;
    BreakExec(Settle(s.(r := Linked(s.r, s.pc, b)), Wrap(s.pc + 4)).(delay := true), i);
    WrapDrop(s.pc + 4, -4);
  }

  lemma TwoMacros(s: Arch, s1: Arch, t1: nat, s2: Arch, t2: nat)
    requires Settled(s) && Sequential(s) && !BranchInSlot(s) && !BranchInSlot(s1)
    requires MacroStep(s) == Macro(Go(s1), t1) && MacroStep(s1) == Macro(Go(s2), t2)
    ensures RunDirect(t1 + t2, s) == Go(s2)
  {
    hide MacroStep, BranchInSlot, RunDirect;
    MacroRefines(s);
    MacroRefines(s1);
    RunSplits(t1, t2, s);
  }

  lemma HandlerIsPlain(s: Arch)
    requires ReturnsAtOnce(s.mem) && s.pc == BREAK_VECTOR
    ensures !BranchInSlot(s)
  {
    EretFields();
    hide IsBranch, Load;
  }

  /** Back where the program was interrupted: only the exception registers have changed. */
  function Resumed(s: Arch, r: Regs, bd: bool): Arch {
    s.(r := r, cp0 := s.cp0[CP0_EPC := s.pc], cause := Cause(EXC_BP, bd), status := Status(false, false))
  }

  /** With erl clear, a BREAK at A comes back to A after four turns with nothing changed but the
      exception registers. With erl set, as it is after reset, ERET goes to ErrorEPC instead. */
  lemma BreakResumes(s: Arch, i: Word)
    requires Settled(s) && Sequential(s) && IsBreak(i) && Load(s.mem, s.pc, 4, true) == Value(i)
    requires ReturnsAtOnce(s.mem)
    ensures RunDirect(4, s).Go?
    ensures !s.status.erl ==> RunDirect(4, s) == Go(Resumed(s, s.r, false))
    ensures RunDirect(4, s).s.pc == s.pc <==> !s.status.erl || s.cp0[CP0_ERROREPC] == s.pc
  {
    hide MacroStep, RunDirect, Load, IsBranch, IsBreak, BranchInSlot, ReturnsAtOnce;
    var s1 := Interrupted(s, s.pc, false);
    BreakMacro(s, i);
    HandlerFetch(s1);
    HandlerIsPlain(s1);
    EretMacro(s1);
    PlainStart(s, i);
    TwoMacros(s, s1, 2, Returned(s1), 2);
  }

  lemma HandlerFetch(s: Arch)
    requires ReturnsAtOnce(s.mem) && s.pc == BREAK_VECTOR
    ensures Load(s.mem, s.pc, 4, true) == Value(ERET)
  {
  }

  lemma PlainStart(s: Arch, i: Word)
    requires IsBreak(i) && Load(s.mem, s.pc, 4, true) == Value(i)
    ensures !BranchInSlot(s)
  {
    BreakIsPlain(i);
    hide IsBranch, Load, IsBreak;
  }

  /** With erl clear, a BREAK in the delay slot of a branch at A sets BD and comes back to A, so that
      the branch is executed again; only its own link has been written. With erl set, ERET goes to
      ErrorEPC here too. */
  lemma SlotBreakResumes(s: Arch, b: Word, i: Word)
    requires Settled(s) && Sequential(s)
    requires IsBranch(b) && GoesOn(s.mem, s.pc, b) && IsBreak(i)
    requires Load(s.mem, s.pc, 4, true) == Value(b) && Load(s.mem, Wrap(s.pc + 4), 4, true) == Value(i)
    requires ReturnsAtOnce(s.mem)
    ensures RunDirect(5, s).Go?
    ensures !s.status.erl ==> RunDirect(5, s) == Go(Resumed(s, Linked(s.r, s.pc, b), true))
    ensures RunDirect(5, s).s.pc == s.pc <==> !s.status.erl || s.cp0[CP0_ERROREPC] == s.pc
  {
    hide MacroStep, RunDirect, Load, IsBranch, IsBreak, BranchInSlot, ReturnsAtOnce, Linked, GoesOn;
    var s1 := Interrupted(s.(r := Linked(s.r, s.pc, b)), s.pc, true);
    SlotBreakMacro(s, b, i);
    HandlerFetch(s1);
    HandlerIsPlain(s1);
    EretMacro(s1);
    SlotStart(s, b, i);
    TwoMacros(s, s1, 3, Returned(s1), 2);
  }

  lemma SlotStart(s: Arch, b: Word, i: Word)
    requires Load(s.mem, s.pc, 4, true) == Value(b) && Load(s.mem, Wrap(s.pc + 4), 4, true) == Value(i) && IsBreak(i)
    ensures !BranchInSlot(s)
  {
    BreakIsPlain(i);
    hide IsBranch, Load, IsBreak;
  }

  /** The registers a branch decides by. */
  function Sources(i: Word): set<RegNo> {
    var op := Opcode(i);
    if op == J || op == JAL then {} else if op == BEQ || op == BNE then {Rs(i), Rt(i)} else {Rs(i)}
  }

  /** Executing the branch again links the same. */
  lemma RelinkedTheSame(r: Regs, at: Word, i: Word)
    ensures Linked(Linked(r, at, i), at, i) == Linked(r, at, i)
  {
    hide Rs, Rt, Rd, Opcode, Funct, Wrap;
    if LinkRegister(i) != 0 {
      assert r[LinkRegister(i) := LinkValue(at, i)][LinkRegister(i) := LinkValue(at, i)] ==
             r[LinkRegister(i) := LinkValue(at, i)];
    }
  }

  /** When the link does not change where the branch goes: it is not read, or it is the register's
      own value, or of the same sign, or both ways lead to the same place. */
  predicate RestartsRight(r: Regs, at: Word, i: Word) {
    var link := LinkRegister(i);
    if link == 0 || link !in Sources(i) then true
    else if Opcode(i) == SPECIAL then r[link] == LinkValue(at, i)
    else (Signed(r[link]) < 0) == (Signed(LinkValue(at, i)) < 0) || Target(r, at, i) == Wrap(at + 8)
  }

  /** Exactly these branches go the same way when they are executed again after their link has been
      written. */
  lemma RestartAgreesIff(r: Regs, at: Word, i: Word)
    requires IsBranch(i)
    ensures NextPc(Linked(r, at, i), at, i) == NextPc(r, at, i) <==> RestartsRight(r, at, i)
  {
    hide Rs, Rt, Rd, Opcode, Funct, SImm, Offset, Wrap, Signed;
  }

  /** In particular those that do not read the register they link. */
  lemma RestartedBranchAgrees(r: Regs, at: Word, i: Word)
    requires IsBranch(i) && (LinkRegister(i) !in Sources(i) || LinkRegister(i) == 0)
    ensures NextPc(Linked(r, at, i), at, i) == NextPc(r, at, i)
    ensures Linked(Linked(r, at, i), at, i) == Linked(r, at, i)
  {
    hide NextPc, Linked, LinkRegister, Sources, IsBranch;
    RestartAgreesIff(r, at, i);
    RelinkedTheSame(r, at, i);
  }

  /** JALR with one register for target and link restarts at A + 8. */
  lemma RestartedJalrGoesAstray(r: Regs, at: Word, i: Word)
    requires Opcode(i) == SPECIAL && Funct(i) == JALR && Rs(i) == Rd(i) && Rd(i) != 0
    ensures NextPc(Linked(r, at, i), at, i) == NextPc(r, at, i) <==> r[Rs(i)] == Wrap(at + 8)
  {
    hide Rs, Rd;
  }

  /** A linking sign branch on register 31 decides by the sign of the link: BGEZAL $31 at 0x80000000,
      taken at first, falls through when it is executed again. */
  lemma RestartedSignBranchGoesAstray(r: Regs)
    requires r[31] == 0
    ensures var i, at: Word := 0x07F1_0004, 0x8000_0000;
            Rt(i) == BGEZAL && Rs(i) == 31 && NextPc(r, at, i) == 0x8000_0014 &&
            NextPc(Linked(r, at, i), at, i) == 0x8000_0008
  {
  }
}
