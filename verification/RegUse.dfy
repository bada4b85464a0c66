/** The register-use map is sound: an operand it does not mark never matters. */
module RegUse {
  import opened Words
  import opened Cpu

  /** Builds the map as the simulator does: everything first, then the exceptions. */
  method InitRegUseMap() returns (use: array<nat>)
    ensures fresh(use) && use.Length == 256
    ensures forall x :: 0 <= x < 256 ==> use[x] == Cpu.RegUse(x)
  {
    use := new nat[256](_ => USE_RS + USE_RT);
    use[64 + SYSCALL], use[64 + BREAK] := 0, 0;
    var i := 0;
    while i < 32
      invariant 0 <= i <= 32
      invariant forall x :: 0 <= x < 64 || 128 + i <= x < 256 ==> use[x] == USE_RS + USE_RT
      invariant forall x :: 64 <= x < 128 + i ==> use[x] == Cpu.RegUse(x)
    {
      use[128 + i] := USE_RS;
      i := i + 1;
    }
    MarkImmediates(use);
    MarkCoprocessors(use);
    MarkLoads(use);
    MarkStores(use);
    MarkUnhandled(use);
  }

  /** Jumps and immediate instructions. */
  method MarkImmediates(use: array<nat>)
    requires use.Length == 256 && forall x :: 0 <= x < 16 ==> use[x] == USE_RS + USE_RT
    modifies use
    ensures forall x :: 0 <= x < 16 ==> use[x] == Cpu.RegUse(x)
    ensures forall x :: 0 <= x < 256 && !(0 <= x < 16) ==> use[x] == old(use[x])
  {
    use[J], use[JAL], use[LUI] := 0, 0, 0;
    use[ADDI], use[ADDIU], use[SLTI], use[SLTIU] := USE_RS, USE_RS, USE_RS, USE_RS;
    use[ANDI], use[ORI], use[XORI] := USE_RS, USE_RS, USE_RS;
  }

  /** Coprocessor instructions. */
  method MarkCoprocessors(use: array<nat>)
    requires use.Length == 256 && forall x :: 16 <= x < 32 ==> use[x] == USE_RS + USE_RT
    modifies use
    ensures forall x :: 16 <= x < 32 ==> use[x] == Cpu.RegUse(x)
    ensures forall x :: 0 <= x < 256 && !(16 <= x < 32) ==> use[x] == old(use[x])
  {
    use[CP0], use[CP1], use[CP2], use[CP1X] := USE_RT, USE_RT, USE_RT, USE_RT;
  }

  /** Loads. */
  method MarkLoads(use: array<nat>)
    requires use.Length == 256 && forall x :: 32 <= x < 40 ==> use[x] == USE_RS + USE_RT
    modifies use
    ensures forall x :: 32 <= x < 40 ==> use[x] == Cpu.RegUse(x)
    ensures forall x :: 0 <= x < 256 && !(32 <= x < 40) ==> use[x] == old(use[x])
  {
    use[LB], use[LH], use[LW], use[LBU], use[LHU] := USE_RS, USE_RS, USE_RS, USE_RS, USE_RS;
    use[LWL], use[LWR] := USE_RS + USE_RT_LATE, USE_RS + USE_RT_LATE;
  }

  /** Stores. */
  method MarkStores(use: array<nat>)
    requires use.Length == 256 && forall x :: 40 <= x < 47 ==> use[x] == USE_RS + USE_RT
    modifies use
    ensures forall x :: 40 <= x < 47 ==> use[x] == Cpu.RegUse(x)
    ensures forall x :: 0 <= x < 256 && !(40 <= x < 47) ==> use[x] == old(use[x])
  {
    var late := USE_RS + USE_RT_LATE;
    use[SB], use[SH], use[SWL], use[SW], use[SWR] := late, late, late, late, late;
  }

  /** CACHE, LL, LWC1, LWC2, PREF, LDC1 and LDC2; SC, SWC1, SWC2, SDC1 and SDC2. */
  method MarkUnhandled(use: array<nat>)
    requires use.Length == 256 && forall x :: 47 <= x < 64 ==> use[x] == USE_RS + USE_RT
    modifies use
    ensures forall x :: 47 <= x < 64 ==> use[x] == Cpu.RegUse(x)
    ensures forall x :: 0 <= x < 256 && !(47 <= x < 64) ==> use[x] == old(use[x])
  {
    var late := USE_RS + USE_RT_LATE;
    use[47], use[48], use[49], use[50], use[51] := USE_RS, USE_RS, USE_RS, USE_RS, USE_RS;
    use[53], use[54] := USE_RS, USE_RS;
    use[56], use[57], use[58], use[61], use[62] := late, late, late, late, late;
  }

  lemma FirstIgnored(s: Arch, at: Word, slot: bool, i: Word, a: Word, a': Word, b: Word, probe: Word)
    requires !UsesRs(i)
    ensures Execute(s, at, slot, i, a, b, probe) == Execute(s, at, slot, i, a', b, probe)
  {
    hide Wrap, Signed, And, Or, Xor, Rs, Rd, Sa, UImm, SImm, ExecuteCp0, ExecuteCp2, ExecuteRdhwr, RegionTarget, Trap;
    hide Shl, Shr, Sar, ExecuteRegimm, ExecuteLoad, ExecuteStore;
  }

  lemma SecondIgnored(s: Arch, at: Word, slot: bool, i: Word, a: Word, b: Word, b': Word, probe: Word)
    requires !UsesRt(i)
    ensures Execute(s, at, slot, i, a, b, probe) == Execute(s, at, slot, i, a, b', probe)
  {
    hide Wrap, Signed, And, Or, Xor, Rs, Rd, Sa, UImm, SImm, ExecuteCp2, ExecuteRdhwr, RegionTarget, Trap;
    hide Shl, Shr, Sar, ExecuteRegimm, ExecuteCp0, ExecuteStore;
  }

  /** Two executions that agree on the marked operands are the same. */
  lemma UnmarkedOperandsIgnored(s: Arch, at: Word, slot: bool, i: Word, a: Word, b: Word,
                                a': Word, b': Word, probe: Word)
    requires UsesRs(i) ==> a == a'
    requires UsesRt(i) ==> b == b'
    ensures Execute(s, at, slot, i, a, b, probe) == Execute(s, at, slot, i, a', b', probe)
  {
    hide Execute, UsesRs, UsesRt;
    if !UsesRs(i) {
      FirstIgnored(s, at, slot, i, a, a', b, probe);
    }
    if !UsesRt(i) {
      SecondIgnored(s, at, slot, i, a', b, b', probe);
    }
  }

  /** The step with every operand read from its register, marked or not. */
  function TrueExec(s: Arch, i: Word, probe: Word): Result {
    WriteBack(Execute(Advance(s), s.pc, s.delay, i, s.r[Rs(i)], s.r[Rt(i)], probe))
  }

  /** Poisoning what the map does not mark changes no step: not the registers, the program
      counters, the coprocessor state or memory, nor the line that SYNCI invalidates. */
  lemma PoisonIsInvisible(s: Arch, i: Word, probe: Word)
    ensures Exec(s, i, probe) == TrueExec(s, i, probe)
    ensures IsSynci(i) ==> DataAddress(s, i) == Wrap(s.r[Rs(i)] + SImm(i))
  {
    UnmarkedOperandsIgnored(Advance(s), s.pc, s.delay, i, OperandS(s.r, i), OperandT(s.r, i),
                            s.r[Rs(i)], s.r[Rt(i)], probe);
  }

  // ---------------------------------------------------------------------------
  // What is marked

  /** The opcodes, and the variants of SPECIAL, that leave a register unmarked. */
  const WITHOUT_RS: set<nat> := {
    0x02, 0x03, 0x0F, 0x10, 0x11, 0x12, 0x13
  }
  const WITHOUT_RT: set<nat> := {
    0x02, 0x03, 0x08, 0x09, 0x0A, 0x0B, 0x0C, 0x0D, 0x0E, 0x0F, 0x20, 0x21, 0x23, 0x24, 0x25,
    0x2F, 0x30, 0x31, 0x32, 0x33, 0x35, 0x36
  }
  const WITHOUT_BOTH: set<nat> := {0x0C, 0x0D}

  /** The opcodes that need rt only late. */
  const LATE: set<nat> := {0x22, 0x26, 0x28, 0x29, 0x2A, 0x2B, 0x2E, 0x38, 0x39, 0x3A, 0x3D, 0x3E}

  /** Exactly these are unmarked: SYSCALL and BREAK read neither register, the sign branches not rt,
      and the others as their opcodes say. */
  lemma MarkedExactly(i: Word)
    ensures UsesRs(i) <==>
            if Opcode(i) == 0x00 then Funct(i) !in WITHOUT_BOTH
            else Opcode(i) == 0x01 || Opcode(i) !in WITHOUT_RS
    ensures UsesRt(i) <==>
            if Opcode(i) == 0x00 then Funct(i) !in WITHOUT_BOTH
            else Opcode(i) != 0x01 && Opcode(i) !in WITHOUT_RT
    ensures Cpu.RegUse(UseIndex(i)) / USE_RT_LATE == 1 <==> Opcode(i) in LATE
  {
    OpcodeRange(i);
    FieldRange(i);
    hide Opcode, Funct, Rt;
  }

  lemma FieldRange(i: Word)
    ensures Funct(i) < 64 && Rt(i) < 32
  {
  }
}
