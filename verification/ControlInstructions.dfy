/** Branches, jumps, coprocessor moves and the rest of the instructions, by their codes. */
module ControlInstructions {
  import opened Words
  import opened Memory
  import opened Cpu
  import opened DelaySlots
  import opened Encoding
  import opened InstructionSet
  import Arithmetic
  import Exceptions

  // ---------------------------------------------------------------------------
  // Branches

  datatype BranchOp = Bltz | Bgez | Bltzal | Bgezal | Beq | Bne | Blez | Bgtz

  /** Branches on sign name their variant where the others name a second register. */
  function BranchWord(op: BranchOp, rs: RegNo, rt: RegNo, offset: Half): Word {
    match op
    case Bltz => IFormat(0x01, rs, 0x00, offset)
    case Bgez => IFormat(0x01, rs, 0x01, offset)
    case Bltzal => IFormat(0x01, rs, 0x10, offset)
    case Bgezal => IFormat(0x01, rs, 0x11, offset)
    case Beq => IFormat(0x04, rs, rt, offset)
    case Bne => IFormat(0x05, rs, rt, offset)
    case Blez => IFormat(0x06, rs, 0, offset)
    case Bgtz => IFormat(0x07, rs, 0, offset)
  }

  predicate Condition(op: BranchOp, a: Word, b: Word) {
    match op
    case Bltz => Signed(a) < 0
    case Bltzal => Signed(a) < 0
    case Bgez => Signed(a) >= 0
    case Bgezal => Signed(a) >= 0
    case Beq => a == b
    case Bne => a != b
    case Blez => Signed(a) <= 0
    case Bgtz => Signed(a) > 0
  }

  /** Where a branch goes: its offset counts words from the delay slot on. */
  function BranchesTo(at: Word, taken: bool, offset: Half): Word {
    if taken then (at + 4 + 4 * if offset < 0x8000 then offset else offset - 0x1_0000) % 0x1_0000_0000
    else (at + 8) % 0x1_0000_0000
  }

  /** The turn of a branch: its delay slot comes next, and then its target. */
  function Branched(s: Arch, link: RegNo, target: Word): Arch {
    s.(r := if link == 0 then s.r else s.r[link := (s.pc + 8) % 0x1_0000_0000], pc := (s.pc + 4) % 0x1_0000_0000,
       pcNext := target, delay := true, annul := false)
  }

  lemma BranchFields(op: BranchOp, rs: RegNo, rt: RegNo, offset: Half)
    ensures var i := BranchWord(op, rs, rt, offset);
            UImm(i) == offset && Rs(i) == rs && ((op == Beq || op == Bne) ==> Rt(i) == rt)
    ensures Opcode(BranchWord(op, rs, rt, offset)) ==
            match op
            case Beq => 0x04
            case Bne => 0x05
            case Blez => 0x06
            case Bgtz => 0x07
            case _ => 0x01
    ensures op == Bltz ==> Rt(BranchWord(op, rs, rt, offset)) == 0x00
    ensures op == Bgez ==> Rt(BranchWord(op, rs, rt, offset)) == 0x01
    ensures op == Bltzal ==> Rt(BranchWord(op, rs, rt, offset)) == 0x10
    ensures op == Bgezal ==> Rt(BranchWord(op, rs, rt, offset)) == 0x11
  {
    hide IFormat, Opcode, Rs, Rt, UImm;
    match op
    case Bltz => ImmediateFields(0x01, rs, 0x00, offset);
    case Bgez => ImmediateFields(0x01, rs, 0x01, offset);
    case Bltzal => ImmediateFields(0x01, rs, 0x10, offset);
    case Bgezal => ImmediateFields(0x01, rs, 0x11, offset);
    case Beq => ImmediateFields(0x04, rs, rt, offset);
    case Bne => ImmediateFields(0x05, rs, rt, offset);
    case Blez => ImmediateFields(0x06, rs, 0, offset);
    case Bgtz => ImmediateFields(0x07, rs, 0, offset);
  }

  /** Every conditional branch, by its condition; the branch to itself only when the probed word does
      not end the program. */
  lemma Branches(s: Arch, op: BranchOp, rs: RegNo, rt: RegNo, offset: Half, probe: Word)
    requires Settled(s) && Sequential(s) && !(BranchWord(op, rs, rt, offset) == 0x1000_FFFF && probe == 0)
    ensures Exec(s, BranchWord(op, rs, rt, offset), probe) ==
            Go(Branched(s, if op == Bltzal || op == Bgezal then 31 else 0,
                        BranchesTo(s.pc, Condition(op, s.r[rs], s.r[rt]), offset)))
  {
    var i := BranchWord(op, rs, rt, offset);
    BranchFields(op, rs, rt, offset);
    hide BranchWord, Opcode, Rs, Rt, UImm, Exec, Signed;
    BranchTurn(s, i, probe);
  }

  /** The branch to itself ends the run when the probed word is 0. */
  lemma EndlessLoopEnds(s: Arch)
    ensures IFormat(0x04, 0, 0, 0xFFFF) == 0x1000_FFFF
    ensures Exec(s, 0x1000_FFFF, 0) == Stop(Exit)
  {
    ImmediateFields(0x04, 0, 0, 0xFFFF);
    assert Opcode(0x1000_FFFF) == 4;
    hide Opcode, OperandS, OperandT;
  }

  /** JR and JALR jump to a register. */
  lemma RegisterJumps(s: Arch, rs: RegNo, rd: RegNo)
    requires Settled(s) && Sequential(s)
    ensures Exec(s, RFormat(0, rs, 0, 0, 0, 0x08), 0) == Go(Branched(s, 0, s.r[rs]))
    ensures Exec(s, RFormat(0, rs, 0, rd, 0, 0x09), 0) == Go(Branched(s, rd, s.r[rs]))
  {
    hide RFormat, Opcode, Rs, Rt, Rd, Funct, Exec;
    RegisterFields(0, rs, 0, 0, 0, 0x08);
    RegisterFields(0, rs, 0, rd, 0, 0x09);
    NotEndless(RFormat(0, rs, 0, 0, 0, 0x08));
    NotEndless(RFormat(0, rs, 0, rd, 0, 0x09));
    BranchTurn(s, RFormat(0, rs, 0, 0, 0, 0x08), 0);
    BranchTurn(s, RFormat(0, rs, 0, rd, 0, 0x09), 0);
  }

  /** J and JAL jump within the region of the delay slot. */
  lemma RegionJumps(s: Arch, offset: int, link: bool)
    requires Settled(s) && Sequential(s) && 0 <= offset < 0x400_0000
    ensures var target := (s.pc + 4) % 0x1_0000_0000 / 0x1000_0000 * 0x1000_0000 + 4 * offset;
            target < 0x1_0000_0000 &&
            Exec(s, JFormat(if link then 0x03 else 0x02, offset), 0) == Go(Branched(s, if link then 31 else 0, target))
  {
    hide JFormat, Opcode, Rs, Rt, Rd, Funct, Exec, Offset;
    var i := JFormat(if link then 0x03 else 0x02, offset);
    JumpFields(if link then 0x03 else 0x02, offset);
    NotEndless(i);
    BranchTurn(s, i, 0);
    WrapOnce((s.pc + 4) % 0x1_0000_0000 / 0x1000_0000 * 0x1000_0000 + 4 * offset);
  }

  lemma NotEndless(i: Word)
    requires Opcode(i) != 4
    ensures !Probes(i)
  {
    assert Opcode(0x1000_FFFF) == 4;
    hide Opcode;
  }

  // ---------------------------------------------------------------------------
  // Coprocessors and hardware registers

  /** MFC0 reads a register of coprocessor 0; MTC0 writes one, and from the status register takes exl
      from bit 1 and erl from bit 2. */
  lemma Coprocessor0Moves(s: Arch, rt: RegNo, rd: RegNo)
    ensures Exec(s, RFormat(0x10, 0, rt, rd, 0, 0), 0) == Go(Next(s, rt, s.cp0[rd]))
    ensures Exec(s, RFormat(0x10, 4, rt, rd, 0, 0), 0) ==
            Go(Next(s, 0, 0).(cp0 := s.cp0[rd := s.r[rt]],
                              status := if rd == 12 then Status(Bit(s.r[rt], 1), Bit(s.r[rt], 2)) else s.status))
  {
    hide RFormat, Opcode, Rs, Rt, Rd, Funct, Exec, Bit;
    RegisterFields(0x10, 0, rt, rd, 0, 0);
    RegisterFields(0x10, 4, rt, rd, 0, 0);
    Cp0Step(s, RFormat(0x10, 0, rt, rd, 0, 0));
    Cp0Step(s, RFormat(0x10, 4, rt, rd, 0, 0));
    StatusBits(s.r[rt]);
  }

  lemma StatusBits(w: Word)
    ensures Bit(w, 1) <==> w / 2 % 2 == 1
    ensures Bit(w, 2) <==> w / 4 % 2 == 1
  {
    assert Pow2(1) == 2 && Pow2(2) == 4;
    hide Pow2;
  }

  /** Bit 2 of the format field tells MTC0 from MFC0; formats from 16 on that are not ERET only leave the
      filler in rt, and a function in a move is fatal. */
  lemma Coprocessor0Formats(s: Arch, rs: RegNo, rt: RegNo, rd: RegNo, f: nat)
    requires f < 64
    ensures rs < 16 && f == 0 ==>
              Exec(s, RFormat(0x10, rs, rt, rd, 0, 0), 0) ==
              Exec(s, RFormat(0x10, if Bit(rs, 2) then 4 else 0, rt, rd, 0, 0), 0)
    ensures rs < 16 && f != 0 ==> Exec(s, RFormat(0x10, rs, rt, rd, 0, f), 0) == Stop(Fatal)
    ensures rs >= 16 && f != 0x18 ==> Exec(s, RFormat(0x10, rs, rt, rd, 0, f), 0) == Go(Next(s, rt, 0xDEAD_BEEF))
  {
    hide RFormat, Opcode, Rs, Rt, Rd, Funct, Exec, Bit;
    var rs' := if Bit(rs, 2) then 4 else 0;
    StatusBits(rs);
    RegisterFields(0x10, rs, rt, rd, 0, f);
    RegisterFields(0x10, rs', rt, rd, 0, 0);
    Cp0Step(s, RFormat(0x10, rs, rt, rd, 0, f));
    Cp0Step(s, RFormat(0x10, rs', rt, rd, 0, 0));
  }

  lemma Cp0Step(s: Arch, i: Word)
    requires Opcode(i) == 0x10
    ensures Exec(s, i, 0) == WriteBack(ExecuteCp0(Advance(s), i, s.r[Rt(i)]))
  {
    assert OperandT(s.r, i) == s.r[Rt(i)];
    hide Opcode, Rs, Rt, Rd, Funct, ExecuteCp0, OperandS, OperandT;
  }

  /** ERET goes to ErrorEPC and clears erl, if erl is set, and else to EPC and clears exl. */
  lemma ExceptionReturn(s: Arch)
    ensures Exec(s, RFormat(0x10, 16, 0, 0, 0, 0x18), 0) ==
            Go(s.(pc := s.pcNext, pcNext := s.cp0[if s.status.erl then 30 else 14], delay := false, annul := true,
                  status := if s.status.erl then Status(s.status.exl, false) else Status(false, false)))
  {
    Exceptions.EretExec(s);
    hide Exec;
  }

  /** Reading coprocessor 2 gives the clock frequency in kilohertz, or 0; the retired-instruction
      counter is not modelled, and the read of its first register into $0 ends the run. */
  lemma Coprocessor2Reads(s: Arch, rt: RegNo, rd: RegNo)
    ensures Exec(s, RFormat(0x12, 0, rt, rd, 0, 0), 0) ==
            if rt == 0 && rd == 0 then Stop(Exit)
            else if rd == 11 then Stop(Unmodelled)
            else Go(Next(s, rt, if rd == 4 then 75000 else 0))
  {
    hide RFormat, Opcode, Rs, Rt, Rd, Exec;
    RegisterFields(0x12, 0, rt, rd, 0, 0);
    EndOfTest(rt, rd);
    Cp2Step(s, RFormat(0x12, 0, rt, rd, 0, 0));
  }

  /** Writing coprocessor 2, and every other format of it, has no effect there and leaves the filler in
      rt; bit 2 of the format field tells writes from reads. */
  lemma Coprocessor2Formats(s: Arch, rs: RegNo, rt: RegNo, rd: RegNo)
    ensures rs >= 16 || Bit(rs, 2) ==> Exec(s, RFormat(0x12, rs, rt, rd, 0, 0), 0) == Go(Next(s, rt, 0xDEAD_BEEF))
    ensures 0 < rs < 16 && !Bit(rs, 2) && rd != 11 ==>
              Exec(s, RFormat(0x12, rs, rt, rd, 0, 0), 0) == Go(Next(s, rt, if rd == 4 then 75000 else 0))
  {
    hide RFormat, Opcode, Rs, Rt, Rd, Exec, Bit;
    StatusBits(rs);
    RegisterFields(0x12, rs, rt, rd, 0, 0);
    NotEndOfTest(rs, rt, rd);
    Cp2Step(s, RFormat(0x12, rs, rt, rd, 0, 0));
  }

  lemma NotEndOfTest(rs: RegNo, rt: RegNo, rd: RegNo)
    ensures rs != 0 ==> RFormat(0x12, rs, rt, rd, 0, 0) != 0x4800_0000
    ensures !Bit(0, 2)
  {
    assert Pow2(2) == 4;
  }

  lemma EndOfTest(rt: RegNo, rd: RegNo)
    ensures RFormat(0x12, 0, rt, rd, 0, 0) == 0x4800_0000 <==> rt == 0 && rd == 0
  {
  }

  lemma Cp2Step(s: Arch, i: Word)
    requires Opcode(i) == 0x12
    ensures Exec(s, i, 0) == WriteBack(ExecuteCp2(Advance(s), i))
  {
    hide Opcode, Rs, Rt, Rd, ExecuteCp2, OperandS, OperandT;
  }

  /** RDHWR: one processor, lines of 16 bytes, 16 cycles a count. */
  lemma HardwareRegisters(s: Arch, rt: RegNo, rd: RegNo)
    ensures Exec(s, RFormat(0x1F, 0, rt, rd, 0, 0x3B), 0) ==
            match rd
            case 0 => Go(Next(s, rt, 1))
            case 1 => Go(Next(s, rt, 16))
            case 2 => Stop(Unmodelled)
            case 3 => Go(Next(s, rt, 16))
            case _ => Stop(Fatal)
  {
    hide RFormat, Opcode, Rs, Rt, Rd, Funct, Exec;
    RegisterFields(0x1F, 0, rt, rd, 0, 0x3B);
    RdhwrStep(s, RFormat(0x1F, 0, rt, rd, 0, 0x3B));
  }

  lemma RdhwrStep(s: Arch, i: Word)
    requires Opcode(i) == 0x1F
    ensures Exec(s, i, 0) == WriteBack(ExecuteRdhwr(Advance(s), i))
  {
    hide Opcode, Rs, Rt, Rd, Funct, ExecuteRdhwr, OperandS, OperandT;
  }

  /** SYNCI invalidates the line of its address, and changes nothing else. */
  lemma Synchronises(s: Arch, base: RegNo, offset: Half)
    ensures var i := IFormat(0x01, base, 0x1F, offset);
            IsSynci(i) && Exec(s, i, 0) == Go(Next(s, 0, 0)) &&
            DataAddress(s, i) == (s.r[base] + if offset < 0x8000 then offset else offset - 0x1_0000) % 0x1_0000_0000
  {
    ImmediateFields(0x01, base, 0x1F, offset);
    hide IFormat, Opcode, Rs, Rt, UImm;
  }

  /** After reset every register is 0, the processor is at the given address, and erl is set. */
  lemma AfterReset(m: Mem, pc: Word)
    ensures var s := ResetState(m, pc);
            s.pc == pc && s.pcNext == (pc + 4) % 0x1_0000_0000 && !s.delay && !s.annul && s.hi == s.lo == 0 &&
            s.status == Status(false, true) && s.cause == Cause(0, false) && s.mem == m &&
            forall k: RegNo :: s.r[k] == 0 && s.cp0[k] == 0
  {
  }

  // ---------------------------------------------------------------------------
  // Everything else

  /** The codes that the simulator handles. */
  const HANDLED: set<nat> := {
    0x00, 0x01, 0x02, 0x03, 0x04, 0x05, 0x06, 0x07, 0x08, 0x09, 0x0A, 0x0B, 0x0C, 0x0D, 0x0E, 0x0F, 0x10, 0x12, 0x1F,
    0x20, 0x21, 0x22, 0x23, 0x24, 0x25, 0x26, 0x28, 0x29, 0x2A, 0x2B, 0x2E, 0x31
  }
  const HANDLED_SPECIAL: set<nat> := {
    0x00, 0x02, 0x03, 0x04, 0x06, 0x07, 0x08, 0x09, 0x0D, 0x10, 0x11, 0x12, 0x13, 0x18, 0x19, 0x1A, 0x1B,
    0x20, 0x21, 0x22, 0x23, 0x24, 0x25, 0x26, 0x27, 0x2A, 0x2B, 0x34
  }
  const HANDLED_REGIMM: set<nat> := {0x00, 0x01, 0x10, 0x11, 0x1F}

  /** It stops on every other code. */
  lemma OthersStop(s: Arch, i: Word)
    requires Opcode(i) !in HANDLED || (Opcode(i) == 0x00 && Funct(i) !in HANDLED_SPECIAL) ||
             (Opcode(i) == 0x01 && Rt(i) !in HANDLED_REGIMM)
    ensures Exec(s, i, 0) == Stop(Fatal)
  {
    hide Opcode, Funct, Rs, Rt, Rd, OperandS, OperandT;
  }

  /** The load into a floating-point register is not modelled. */
  lemma FloatingLoadUnmodelled(s: Arch, i: Word)
    requires Opcode(i) == 0x31
    ensures Exec(s, i, 0) == Stop(Unmodelled)
  {
    hide Opcode, Rs, Rt, OperandS, OperandT;
  }
}
