/** Stepping through a program: the debugged program stops in the states of the undebugged one. */
module GdbSession {
  import opened Words
  import opened Memory
  import opened Cpu
  import opened CachedRuns
  import opened DelaySlots
  import opened GdbStep
  import opened GdbTheorems
  import opened GdbCoverage
  import Exceptions

  // ---------------------------------------------------------------------------
  // What a visit to the handler changes

  const K0: RegNo := 26
  const K1: RegNo := 27

  /** The handler's entry overwrites k0 and k1 before it saves them; the exception itself sets EPC,
      the cause and exl. */
  function Blind(s: Arch): Arch {
    s.(r := s.r[K0 := 0][K1 := 0], cp0 := s.cp0[CP0_EPC := 0], cause := Cause(0, false),
       status := s.status.(exl := false))
  }

  /** The instruction is an ERET, or moves EPC to a register. */
  predicate ReadsEpc(i: Word) {
    Opcode(i) == CP0 && if Rs(i) >= 16 then Funct(i) == C0_ERET else Rd(i) == CP0_EPC && Rs(i) / 4 % 2 == 0
  }

  /** The instruction reads nothing that a visit changes. */
  predicate Oblivious(i: Word) {
    !ReadsEpc(i) && (UsesRs(i) ==> Rs(i) != K0 && Rs(i) != K1) && (UsesRt(i) ==> Rt(i) != K0 && Rt(i) != K1)
  }

  function BlindOut(o: Out): Out {
    match o
    case Halted(_) => o
    case Done(s, wbr, wbv) => Done(Blind(s), wbr, wbv)
  }

  function BlindResult(r: Result): Result {
    match r
    case Stop(_) => r
    case Go(s) => Go(Blind(s))
  }

  lemma TrapBlind(s: Arch, exc: nat, at: Word, slot: bool, vector: Word)
    ensures BlindOut(Trap(Blind(s), exc, at, slot, vector)) == BlindOut(Trap(s, exc, at, slot, vector))
  {
    hide Wrap;
    BlindTwice(s);
    var epc := Wrap(at - if slot then 4 else 0);
    assert s.cp0[CP0_EPC := 0][CP0_EPC := epc][CP0_EPC := 0] == s.cp0[CP0_EPC := epc][CP0_EPC := 0];
  }

  lemma BlindTwice(s: Arch)
    ensures Blind(Blind(s)) == Blind(s)
  {
    assert s.r[K0 := 0][K1 := 0][K0 := 0][K1 := 0] == s.r[K0 := 0][K1 := 0];
    assert s.cp0[CP0_EPC := 0][CP0_EPC := 0] == s.cp0[CP0_EPC := 0];
  }

  lemma ArithmeticBlind(s: Arch, at: Word, slot: bool, i: Word, a: Word, b: Word)
    ensures BlindOut(Divide(Blind(s), i, a, b)) == BlindOut(Divide(s, i, a, b))
    ensures BlindOut(DivideUnsigned(Blind(s), i, a, b)) == BlindOut(DivideUnsigned(s, i, a, b))
    ensures BlindOut(AddTrapping(Blind(s), at, slot, i, a, b)) == BlindOut(AddTrapping(s, at, slot, i, a, b))
  {
    BlindTwice(s);
    TrapBlind(s, EXC_OV, at, slot, OVERFLOW_VECTOR);
    hide Wrap, Signed, TakenForOverflow, TruncDiv, TruncRem, Rd, Trap;
  }

  lemma ShiftsBlind(s: Arch, at: Word, slot: bool, i: Word, a: Word, b: Word)
    requires Funct(i) < MFHI
    ensures BlindOut(ExecuteSpecial(Blind(s), at, slot, i, a, b)) == BlindOut(ExecuteSpecial(s, at, slot, i, a, b))
  {
    BlindTwice(s);
    TrapBlind(s, EXC_BP, at, slot, BREAK_VECTOR);
    hide Shl, Shr, Sar, Rd, Sa, Funct, Neg, Divide, DivideUnsigned, AddTrapping, Trap;
  }

  lemma ProductsBlind(s: Arch, at: Word, slot: bool, i: Word, a: Word, b: Word)
    requires MFHI <= Funct(i) < ADD
    ensures BlindOut(ExecuteSpecial(Blind(s), at, slot, i, a, b)) == BlindOut(ExecuteSpecial(s, at, slot, i, a, b))
  {
    BlindTwice(s);
    ArithmeticBlind(s, at, slot, i, a, b);
    hide Wrap, Signed, Rd, Sa, Funct, Neg, Divide, DivideUnsigned, AddTrapping, Trap;
  }

  lemma SumsBlind(s: Arch, at: Word, slot: bool, i: Word, a: Word, b: Word)
    requires ADD <= Funct(i)
    ensures BlindOut(ExecuteSpecial(Blind(s), at, slot, i, a, b)) == BlindOut(ExecuteSpecial(s, at, slot, i, a, b))
  {
    BlindTwice(s);
    ArithmeticBlind(s, at, slot, i, a, b);
    ArithmeticBlind(s, at, slot, i, a, Neg(b));
    hide And, Or, Xor, Not, Wrap, Signed, Rd, Sa, Funct, Neg, Divide, DivideUnsigned, AddTrapping, Trap;
  }

  lemma SpecialBlind(s: Arch, at: Word, slot: bool, i: Word, a: Word, b: Word)
    ensures BlindOut(ExecuteSpecial(Blind(s), at, slot, i, a, b)) == BlindOut(ExecuteSpecial(s, at, slot, i, a, b))
  {
    hide ExecuteSpecial, BlindOut;
    if Funct(i) < MFHI {
      ShiftsBlind(s, at, slot, i, a, b);
    } else if Funct(i) < ADD {
      ProductsBlind(s, at, slot, i, a, b);
    } else {
      SumsBlind(s, at, slot, i, a, b);
    }
  }

  lemma Cp0Blind(s: Arch, i: Word, b: Word)
    requires Opcode(i) == CP0 && !ReadsEpc(i)
    ensures BlindOut(ExecuteCp0(Blind(s), i, b)) == BlindOut(ExecuteCp0(s, i, b))
  {
    hide Rs, Rt, Rd, Funct, Opcode;
    BlindTwice(s);
    var rd := Rd(i);
    assert s.cp0[CP0_EPC := 0][rd := b][CP0_EPC := 0] == s.cp0[rd := b][CP0_EPC := 0];
  }

  lemma FewBlind(s: Arch, i: Word, a: Word)
    ensures BlindOut(ExecuteRegimm(Blind(s), i, a)) == BlindOut(ExecuteRegimm(s, i, a))
    ensures BlindOut(ExecuteCp2(Blind(s), i)) == BlindOut(ExecuteCp2(s, i))
    ensures BlindOut(ExecuteRdhwr(Blind(s), i)) == BlindOut(ExecuteRdhwr(s, i))
  {
    hide Wrap, Signed, Rs, Rt, Rd, Funct, SImm;
    BlindTwice(s);
  }

  lemma MemoryBlind(s: Arch, i: Word, address: Word, b: Word)
    ensures IsLoad(Opcode(i)) ==>
              BlindOut(ExecuteLoad(Blind(s), i, address, b)) == BlindOut(ExecuteLoad(s, i, address, b))
    ensures IsStore(Opcode(i)) ==>
              BlindOut(ExecuteStore(Blind(s), i, address, b)) == BlindOut(ExecuteStore(s, i, address, b))
  {
    hide Load, Store, LoadResult, MergeLeft, MergeRight, LeftShift, WordBase, Rt, Opcode;
    BlindTwice(s);
  }

  /** Jumps, branches and immediate instructions. */
  lemma ImmediatesBlind(s: Arch, at: Word, slot: bool, i: Word, a: Word, b: Word, probe: Word)
    requires J <= Opcode(i) <= LUI
    ensures BlindOut(Execute(Blind(s), at, slot, i, a, b, probe)) == BlindOut(Execute(s, at, slot, i, a, b, probe))
  {
    BlindTwice(s);
    hide And, Or, Xor, Wrap, Signed, Rt, UImm, SImm, RegionTarget, BranchTarget, Opcode, Blind;
    hide ExecuteSpecial, ExecuteRegimm, ExecuteCp0, ExecuteCp2, ExecuteRdhwr, ExecuteLoad, ExecuteStore;
    JumpBlind(s);
  }

  lemma JumpBlind(s: Arch)
    ensures Blind(s).pc == s.pc && Blind(s).pcNext == s.pcNext
    ensures forall t :: Blind(Jump(Blind(s), t)) == Blind(Jump(s, t))
  {
    BlindTwice(s);
  }

  /** With given operands, an instruction does the same whatever a visit has changed. */
  lemma ExecuteBlind(s: Arch, at: Word, slot: bool, i: Word, a: Word, b: Word, probe: Word)
    requires !ReadsEpc(i)
    ensures BlindOut(Execute(Blind(s), at, slot, i, a, b, probe)) == BlindOut(Execute(s, at, slot, i, a, b, probe))
  {
    hide Wrap, Signed, Rt, UImm, SImm, Opcode, ReadsEpc, Blind, BlindOut, Jump, Branch, Flag;
    hide ExecuteSpecial, ExecuteRegimm, ExecuteCp0, ExecuteCp2, ExecuteRdhwr, ExecuteLoad, ExecuteStore;
    if J <= Opcode(i) <= LUI {
      ImmediatesBlind(s, at, slot, i, a, b, probe);
    } else {
      SpecialBlind(s, at, slot, i, a, b);
      FewBlind(s, i, a);
      MemoryBlind(s, i, Wrap(a + SImm(i)), b);
      HaltsBlind(Unmodelled);
      HaltsBlind(Fatal);
      if Opcode(i) == CP0 {
        Cp0Blind(s, i, b);
      }
    }
  }

  lemma HaltsBlind(why: Halt)
    ensures BlindOut(Halted(why)) == Halted(why)
  {
  }

  lemma WriteBackBlind(o: Out, o': Out)
    requires BlindOut(o) == BlindOut(o')
    ensures BlindResult(WriteBack(o)) == BlindResult(WriteBack(o'))
  {
    if o.Done? && o.wbr != 0 {
      RegisterBlind(o.s.r, o'.s.r, o.wbr, o.wbv);
    }
  }

  lemma RegisterBlind(r: Regs, r': Regs, k: RegNo, v: Word)
    requires r[K0 := 0][K1 := 0] == r'[K0 := 0][K1 := 0]
    ensures r[k := v][K0 := 0][K1 := 0] == r'[k := v][K0 := 0][K1 := 0]
    ensures k != K0 && k != K1 ==> r[k] == r'[k]
  {
    assert forall j :: 0 <= j < 32 && j != K0 && j != K1 ==>
      r[j] == r[K0 := 0][K1 := 0][j] && r'[j] == r'[K0 := 0][K1 := 0][j];
  }

  lemma OperandsBlind(r: Regs, r': Regs, i: Word)
    requires r[K0 := 0][K1 := 0] == r'[K0 := 0][K1 := 0] && Oblivious(i)
    ensures OperandS(r, i) == OperandS(r', i) && OperandT(r, i) == OperandT(r', i)
  {
    hide UsesRs, UsesRt, Rs, Rt, ReadsEpc;
    RegisterBlind(r, r', Rs(i), 0);
    RegisterBlind(r, r', Rt(i), 0);
  }

  lemma ExecBlind(s: Arch, s': Arch, i: Word, probe: Word)
    requires Blind(s) == Blind(s') && Oblivious(i)
    ensures BlindResult(Exec(s, i, probe)) == BlindResult(Exec(s', i, probe))
  {
    hide Execute, OperandS, OperandT, ReadsEpc, UsesRs, UsesRt, Wrap, WriteBack;
    var a, b := OperandS(s.r, i), OperandT(s.r, i);
    OperandsBlind(s.r, s'.r, i);
    assert Blind(Advance(s)) == Blind(Advance(s'));
    ExecuteBlind(Advance(s), s.pc, s.delay, i, a, b, probe);
    ExecuteBlind(Advance(s'), s.pc, s.delay, i, a, b, probe);
    WriteBackBlind(Execute(Advance(s), s.pc, s.delay, i, a, b, probe),
                   Execute(Advance(s'), s.pc, s.delay, i, a, b, probe));
  }

  // ---------------------------------------------------------------------------
  // Runs

  predicate ObliviousRun(n: nat, s: Arch) {
    n == 0 || (Oblivious(Instruction(s)) && (StepDirect(s).Go? ==> ObliviousRun(n - 1, StepDirect(s).s)))
  }

  lemma FetchBlind(s: Arch, s': Arch)
    requires Blind(s) == Blind(s')
    ensures FetchDirect(s) == FetchDirect(s') && Instruction(s) == Instruction(s')
    ensures FetchDirect(s).Ready? ==> FetchDirect(s).i == Instruction(s)
  {
    hide Load, Probes, Wrap;
  }

  lemma StepBlind(s: Arch, s': Arch)
    requires Blind(s) == Blind(s') && Oblivious(Instruction(s))
    ensures BlindResult(StepDirect(s)) == BlindResult(StepDirect(s'))
  {
    hide FetchDirect, Exec, Oblivious, Instruction, Blind;
    FetchBlind(s, s');
    if FetchDirect(s).Ready? {
      ExecBlind(s, s', FetchDirect(s).i, FetchDirect(s).probe);
    }
  }

  /** A run that reads nothing a visit changes goes the same way after one. */
  lemma {:induction false} RunBlind(n: nat, s: Arch, s': Arch)
    requires Blind(s) == Blind(s') && ObliviousRun(n, s)
    ensures BlindResult(RunDirect(n, s)) == BlindResult(RunDirect(n, s'))
  {
    hide StepDirect, Oblivious, Instruction, Blind;
    if n > 0 {
      StepBlind(s, s');
      if StepDirect(s).Go? {
        RunBlind(n - 1, StepDirect(s).s, StepDirect(s').s);
      }
    }
  }

  lemma AvoidsBlind(s: Arch, s': Arch, live: seq<Saved>)
    requires Blind(s) == Blind(s') && Oblivious(Instruction(s)) && AvoidsStep(s, live)
    ensures AvoidsStep(s', live)
  {
    hide Oblivious, Clear, OperandS, OperandT, Instruction, Probes;
    OperandsBlind(s.r, s'.r, Instruction(s));
    FetchBlind(s, s');
  }

  lemma {:induction false} AvoidsRunBlind(n: nat, s: Arch, s': Arch, live: seq<Saved>)
    requires Blind(s) == Blind(s') && ObliviousRun(n, s) && AvoidsRun(n, s, live)
    ensures AvoidsRun(n, s', live)
  {
    hide StepDirect, Oblivious, Instruction, AvoidsStep, Blind;
    if n > 0 {
      StepBlind(s, s');
      AvoidsBlind(s, s', live);
      if StepDirect(s).Go? {
        AvoidsRunBlind(n - 1, StepDirect(s).s, StepDirect(s').s, live);
      }
    }
  }

  // ---------------------------------------------------------------------------
  // The debugged program

  /** The program as a visit to the handler resumes it, and the stub. */
  datatype Debugged = Debugged(st: Stub, s: Arch)

  /** Whatever a visit leaves in k0 and k1. */
  datatype Lost = Lost(k0: Word, k1: Word)

  function WithLost(r: Regs, k: Lost): Regs {
    r[K0 := k.k0][K1 := k.k1]
  }

  datatype Visit = Prompt(d: Debugged) | Elsewhere | Broken(why: Halt)

  /** The instruction word at the program counter. */
  function Here(s: Arch): Word {
    match Load(s.mem, s.pc, 4, true) case Fault(_) => 0 case Value(i) => i
  }

  /** The cause register after an exception. */
  function CauseOf(c: Cause): (f: CauseFields)
    ensures InFields(f)
  {
    CauseFields(if c.bd then 2 else 0, 0, 0, c.exc % 32, 0)
  }

  /** One command to step: breakpoints are planted, the program runs until it has entered the handler
      or should have, the handler puts the words back, and ERET leaves it. */
  function StepVisit(d: Debugged, k: Lost): Visit {
    match SingleStep(d.st, d.s.r, d.s.pc)
    case Crash(why) => Broken(why)
    case Fine(st) =>
      match RunDirect(Turns(Here(d.s)) + 2, d.s.(mem := st.mem))
      case Stop(why) => Broken(why)
      case Go(u) =>
        if u.pc != BREAK_VECTOR then Elsewhere
        else
          match Handle(st.(mem := u.mem), CauseWord(CauseOf(u.cause)), [], Continue)
          case Crash(why) => Broken(why)
          case Fine(st') =>
            Prompt(Debugged(st', Exceptions.Returned(u.(r := WithLost(u.r, k), mem := st'.mem))))
  }

  function StepVisits(d: Debugged, ks: seq<Lost>): Visit
    decreases |ks|
  {
    if ks == [] then Prompt(d)
    else
      match StepVisit(d, ks[0])
      case Prompt(d') => StepVisits(d', ks[1..])
      case v => v
  }

  // ---------------------------------------------------------------------------
  // The program without a debugger, instruction by instruction

  function Instructions(n: nat, s: Arch): Result {
    if n == 0 then Go(s)
    else
      match RunDirect(Turns(Here(s)), s)
      case Stop(why) => Stop(why)
      case Go(s') => Instructions(n - 1, s')
  }

  function Idle(m: Mem): Stub {
    Stub(m, FREE, FREE, FREE)
  }

  /** The instruction at s can be stepped: the stub covers it and can plant its breakpoints; it takes
      no exception, does not touch the planted words, and reads nothing that a visit changes. */
  ghost predicate Steppable(s: Arch) {
    var i := Here(s);
    var st := SingleStep(Idle(s.mem), s.r, s.pc);
    var r := RunDirect(Turns(i), s);
    WholeWords(s.mem) && Load(s.mem, s.pc, 4, false) == Value(i) && Covered(i) && !BranchInSlot(s) &&
    0 !in Plants(s.r, s.pc, i) && st.Fine? && AvoidsRun(Turns(i), s, Live(st.s)) &&
    ObliviousRun(Turns(i), s) && r.Go? && !r.s.annul && !r.s.status.erl
  }

  ghost predicate AllSteppable(n: nat, s: Arch) {
    n == 0 || (Steppable(s) && AllSteppable(n - 1, RunDirect(Turns(Here(s)), s).s))
  }

  // ---------------------------------------------------------------------------
  // One step

  /** Taken slots are overwritten whatever was in them. */
  lemma PlantsTheSame(st: Stub, r: Regs, epc: Word)
    requires AllFree(st)
    ensures var a, b := SingleStep(st, r, epc), SingleStep(Idle(st.mem), r, epc);
            a.Fine? == b.Fine? && (a.Fine? ==> a.s.mem == b.s.mem && Live(a.s) == Live(b.s))
  {
    hide Load, Store, Plants;
  }

  lemma PlantsBlind(r: Regs, r': Regs, epc: Word, i: Word)
    requires r[K0 := 0][K1 := 0] == r'[K0 := 0][K1 := 0] && Oblivious(i)
    ensures Plants(r, epc, i) == Plants(r', epc, i)
  {
    hide Wrap, Or, Shl, Shr, Offset, SImm, Rs, Rt, Funct, Opcode, ReadsEpc, PredictsBranch;
    RegisterBlind(r, r', Rs(i), 0);
  }

  /** The program comes back from the handler as it was, but for what a visit changes. */
  lemma ReturnsBlind(s: Arch, k: Lost, m: Mem)
    requires Settled(s) && Sequential(s) && !s.status.erl
    ensures var u := Exceptions.Interrupted(s.(mem := m), s.pc, false);
            var d := Exceptions.Returned(u.(r := WithLost(u.r, k), mem := s.mem));
            Blind(d) == Blind(s) && d.mem == s.mem
  {
    hide Wrap;
    assert s.r[K0 := k.k0][K1 := k.k1][K0 := 0][K1 := 0] == s.r[K0 := 0][K1 := 0];
    assert s.cp0[CP0_EPC := s.pc][CP0_EPC := 0] == s.cp0[CP0_EPC := 0];
  }

  /** What the debugged program meets the conditions of a single step with. */
  lemma SameConditions(d: Debugged, s: Arch, i: Word, st: Stub)
    requires AllFree(d.st) && d.st.mem == s.mem && Blind(d.s) == Blind(s)
    requires Settled(s) && Sequential(s) && Steppable(s) && i == Here(s)
    requires st == SingleStep(Idle(s.mem), s.r, s.pc).s
    ensures Load(s.mem, s.pc, 4, true) == Value(i) && Here(d.s) == i
    ensures SingleStep(d.st, d.s.r, d.s.pc).Fine?
    ensures var st' := SingleStep(d.st, d.s.r, d.s.pc).s;
            st'.mem == st.mem && Live(st') == Live(st) && Steps(d.st, d.s, i, st') && GdbStep.Ready(st') &&
            AvoidsRun(Turns(i), d.s, Live(st'))
    ensures PlainStep(s, i, RunDirect(Turns(i), s).s)
    ensures RunDirect(Turns(i), d.s).Go? && Blind(RunDirect(Turns(i), d.s).s) == Blind(RunDirect(Turns(i), s).s)
    ensures PlainStep(d.s, i, RunDirect(Turns(i), d.s).s)
  {
    hide RunDirect, SingleStep, Plants, Covered, AvoidsRun, ObliviousRun, WholeWords, Hides, GdbStep.Ready;
    hide Load, StepDirect, Live, Oblivious, IsBranch;
    FetchableToo(s.mem, s.pc);
    FirstOblivious(s);
    PlantsBlind(s.r, d.s.r, s.pc, i);
    PlantedBlind(s.mem, s.r, d.s.r, s.pc, i);
    PlantsTheSame(d.st, d.s.r, d.s.pc);
    RunBlind(Turns(i), s, d.s);
    AvoidsRunBlind(Turns(i), s, d.s, Live(st));
    StepsHides(d.st, d.s, i, SingleStep(d.st, d.s.r, d.s.pc).s);
  }

  lemma PlantedBlind(m: Mem, r: Regs, r': Regs, epc: Word, i: Word)
    requires Load(m, epc, 4, false) == Value(i) && Plants(r, epc, i) == Plants(r', epc, i)
    ensures SingleStep(Idle(m), r, epc) == SingleStep(Idle(m), r', epc)
  {
    hide Load, Plants, PlantAll;
  }

  lemma FirstOblivious(s: Arch)
    requires Steppable(s) && Settled(s)
    ensures Oblivious(Here(s))
  {
    hide Load, StepDirect, Oblivious, Plants, Covered, AvoidsRun, WholeWords, SingleStep, RunDirect, BranchInSlot;
    assert Instruction(s) == Here(s);
  }

  lemma SteppableMeans(s: Arch)
    requires Steppable(s)
    ensures RunDirect(Turns(Here(s)), s).Go? && Covered(Here(s)) && !RunDirect(Turns(Here(s)), s).s.status.erl
    ensures SingleStep(Idle(s.mem), s.r, s.pc).Fine?
  {
    hide RunDirect, Here, Covered, Plants, SingleStep, AvoidsRun, ObliviousRun, WholeWords;
  }

  lemma GoesSettled(st0: Stub, s: Arch, i: Word, st: Stub, s2: Arch)
    requires Steps(st0, s, i, st) && PlainStep(s, i, s2) && AvoidsRun(Turns(i), s, Live(st))
    ensures Settled(s2) && Sequential(s2)
  {
    hide Steps, Sequential, Probes, RunDirect, AvoidsStep, BranchInSlot;
    AvoidsItself(st0, s, i, st);
    PlainGoes(s, i, s2);
  }

  lemma SettledBlind(s: Arch, s': Arch)
    requires Blind(s) == Blind(s')
    ensures Settled(s) == Settled(s') && Sequential(s) == Sequential(s') && s.status.erl == s'.status.erl
    ensures s.mem == s'.mem && s.pc == s'.pc
  {
    hide Wrap;
  }

  lemma StopUndone(st: Stub, s2: Arch, u: Result)
    requires GdbStep.Ready(st) && StopsAt(st, s2, u)
    ensures u.Go? && u.s.pc == BREAK_VECTOR && u.s == Exceptions.Interrupted(s2.(mem := u.s.mem), s2.pc, false)
    ensures Undo(st.(mem := u.s.mem)).Fine?
    ensures Handle(st.(mem := u.s.mem), CauseWord(CauseOf(u.s.cause)), [], Continue) == Undo(st.(mem := u.s.mem))
    ensures AllFree(Undo(st.(mem := u.s.mem)).s) && Undo(st.(mem := u.s.mem)).s.mem == s2.mem
  {
    hide PutBack, BreaksAt, WholeWords, Wrap, CauseWord, Handle;
    BreakUndoes(st.(mem := u.s.mem), CauseOf(u.s.cause), [], Continue);
  }

  /** One step of the debugged program is one instruction of the undebugged one. */
  lemma OneVisit(d: Debugged, s: Arch, k: Lost) returns (d': Debugged)
    requires AllFree(d.st) && d.st.mem == s.mem && Blind(d.s) == Blind(s)
    requires Settled(s) && Sequential(s) && Steppable(s)
    ensures StepVisit(d, k) == Prompt(d')
    ensures RunDirect(Turns(Here(s)), s).Go?
    ensures var s' := RunDirect(Turns(Here(s)), s).s;
            AllFree(d'.st) && d'.st.mem == s'.mem && Blind(d'.s) == Blind(s') && Settled(s') && Sequential(s')
  {
    hide RunDirect, SingleStep, Plants, AvoidsRun, WholeWords, Undo, Exceptions.Returned, Exceptions.Interrupted;
    hide GdbStep.Ready, Here, Live, StopsAt, PlainStep, Settled, Sequential, Turns, Covered, Blind, Steps, Steppable;
    hide AllFree, Handle, CauseWord, CauseOf;
    var i := Here(s);
    SteppableMeans(s);
    SameConditions(d, s, i, SingleStep(Idle(s.mem), s.r, s.pc).s);
    var st := SingleStep(d.st, d.s.r, d.s.pc).s;
    var s2, d2 := RunDirect(Turns(i), s).s, RunDirect(Turns(i), d.s).s;
    SingleStepIsOneStep(d.st, d.s, i, st, d2);
    GoesSettled(d.st, d.s, i, st, d2);
    SettledBlind(d2, s2);
    var u := RunDirect(Turns(i) + 2, d.s.(mem := st.mem));
    StopUndone(st, d2, u);
    ReturnsBlind(d2, k, u.s.mem);
    var r := u.s.(r := WithLost(u.s.r, k), mem := d2.mem);
    d' := Debugged(Undo(st.(mem := u.s.mem)).s, Exceptions.Returned(r));
  }

  // ---------------------------------------------------------------------------
  // Any number of steps

  /** Stepping the debugged program any number of times, whatever the visits leave in k0 and k1, comes
      to the state of the undebugged program after as many instructions, with nothing planted. */
  lemma {:induction false} SteppingIsRunning(d: Debugged, s: Arch, ks: seq<Lost>)
    requires AllFree(d.st) && d.st.mem == s.mem && Blind(d.s) == Blind(s)
    requires Settled(s) && Sequential(s) && AllSteppable(|ks|, s)
    ensures var v, r := StepVisits(d, ks), Instructions(|ks|, s);
            v.Prompt? && r.Go? && AllFree(v.d.st) && v.d.st.mem == r.s.mem && Blind(v.d.s) == Blind(r.s)
    decreases |ks|
  {
    hide StepVisit, RunDirect, Steppable, Here, Blind, Settled, Sequential, AllFree;
    if ks != [] {
      var d' := OneVisit(d, s, ks[0]);
      SteppingIsRunning(d', RunDirect(Turns(Here(s)), s).s, ks[1..]);
    }
  }

  lemma {:induction false} FewerSteppable(n: nat, k: nat, s: Arch)
    requires k <= n && AllSteppable(n, s)
    ensures AllSteppable(k, s)
    decreases k
  {
    hide Steppable, RunDirect, Here;
    if k > 0 {
      SteppableMeans(s);
      FewerSteppable(n - 1, k - 1, RunDirect(Turns(Here(s)), s).s);
    }
  }

  /** So it stops at every state on the way, one after another. */
  lemma StopsAtEveryState(d: Debugged, s: Arch, ks: seq<Lost>, k: nat)
    requires AllFree(d.st) && d.st.mem == s.mem && Blind(d.s) == Blind(s)
    requires Settled(s) && Sequential(s) && AllSteppable(|ks|, s) && k <= |ks|
    ensures var v, r := StepVisits(d, ks[..k]), Instructions(k, s);
            v.Prompt? && r.Go? && AllFree(v.d.st) && v.d.st.mem == r.s.mem && Blind(v.d.s) == Blind(r.s)
  {
    hide AllSteppable, StepVisits, Instructions, Blind, Settled, Sequential, AllFree;
    FewerSteppable(|ks|, k, s);
    SteppingIsRunning(d, s, ks[..k]);
  }
}
