/** One step of the simulated processor: decode, operands, execution and write-back. */
module Cpu {
  import opened Words
  import opened Memory

  // ---------------------------------------------------------------------------
  // Instruction fields

  type RegNo = x: int | 0 <= x < 32

  // The upper half is the opcode and two registers; the lower one an immediate, or a register, a
  // shift amount and a function.
  function Upper(i: Word): nat { i / 0x1_0000 }
  function UImm(i: Word): Word { i % 0x1_0000 }
  function Opcode(i: Word): nat { Upper(i) / 32 / 32 }
  function Rs(i: Word): RegNo { Upper(i) / 32 % 32 }
  function Rt(i: Word): RegNo { Upper(i) % 32 }
  function Rd(i: Word): RegNo { UImm(i) / 64 / 32 }
  function Sa(i: Word): RegNo { UImm(i) / 64 % 32 }
  function Funct(i: Word): nat { UImm(i) % 64 }
  function SImm(i: Word): int { if UImm(i) < 0x8000 then UImm(i) else UImm(i) - 0x1_0000 }
  function Offset(i: Word): (o: Word)
    ensures o < 0x400_0000
  {
    i % 0x400_0000
  }

  // Opcodes
  const SPECIAL := 0
  const REGIMM := 1
  const J := 2
  const JAL := 3
  const BEQ := 4
  const BNE := 5
  const BLEZ := 6
  const BGTZ := 7
  const ADDI := 8
  const ADDIU := 9
  const SLTI := 10
  const SLTIU := 11
  const ANDI := 12
  const ORI := 13
  const XORI := 14
  const LUI := 15
  const CP0 := 16
  const CP1 := 17
  const CP2 := 18
  const CP1X := 19
  const RDHWR := 31
  const LB := 32
  const LH := 33
  const LWL := 34
  const LW := 35
  const LBU := 36
  const LHU := 37
  const LWR := 38
  const SB := 40
  const SH := 41
  const SWL := 42
  const SW := 43
  const SWR := 46
  const LWC1 := 49

  // Functions of SPECIAL
  const SLL := 0
  const SRL := 2
  const SRA := 3
  const SLLV := 4
  const SRLV := 6
  const SRAV := 7
  const JR := 8
  const JALR := 9
  const SYSCALL := 12
  const BREAK := 13
  const MFHI := 16
  const MTHI := 17
  const MFLO := 18
  const MTLO := 19
  const MULT := 24
  const MULTU := 25
  const DIV := 26
  const DIVU := 27
  const ADD := 32
  const ADDU := 33
  const SUB := 34
  const SUBU := 35
  const AND := 36
  const OR := 37
  const XOR := 38
  const NOR := 39
  const SLT := 42
  const SLTU := 43
  const TEQ := 52

  // Variants of REGIMM
  const BLTZ := 0
  const BGEZ := 1
  const BLTZAL := 16
  const BGEZAL := 17
  const SYNCI := 31

  const C0_ERET := 24
  const CP0_STATUS: RegNo := 12
  const CP0_EPC: RegNo := 14
  const CP0_ERROREPC: RegNo := 30
  const PERF_FREQUENCY := 4
  const PERF_RETIRED_INST := 11

  const EXC_BP := 9
  const EXC_OV := 12
  const BREAK_VECTOR: Word := 0xBFC0_0380
  const OVERFLOW_VECTOR: Word := 0xBFC0_0280

  /** What an instruction writes to its destination when it computes no value. */
  const FILLER: Word := 0xDEAD_BEEF
  const POISON_S: Word := 0xDEAD_1111
  const POISON_T: Word := 0xDEAD_2222

  /** The branch to itself; with a zero word two places on, the simulator takes it for the end. */
  const ENDLESS_LOOP: Word := 0x1000_FFFF

  // ---------------------------------------------------------------------------
  // State

  type Regs = s: seq<Word> | |s| == 32 witness seq(32, _ => 0)

  /** The two status bits the simulator reads or sets. */
  datatype Status = Status(exl: bool, erl: bool)

  datatype Cause = Cause(exc: nat, bd: bool)

  /** The state at the top of the step loop: the registers and memory, the next two program
      counters, and the two delay-slot flags. */
  datatype Arch = Arch(r: Regs, hi: Word, lo: Word, pc: Word, pcNext: Word, delay: bool, annul: bool,
                       cp0: Regs, status: Status, cause: Cause, mem: Mem)

  function ResetState(m: Mem, pc: Word): Arch {
    Arch(seq(32, _ => 0), 0, 0, pc, Wrap(pc + 4), false, false, seq(32, _ => 0),
         Status(false, true), Cause(0, false), m)
  }

  datatype Result = Go(s: Arch) | Stop(why: Halt)

  /** An executed instruction: the new state before write-back, and what is written back where. */
  datatype Out = Done(s: Arch, wbr: RegNo, wbv: Word) | Halted(why: Halt)

  // ---------------------------------------------------------------------------
  // Arithmetic

  /** C's division of signed operands truncates toward zero. */
  function TruncDiv(x: int, y: int): int
    requires y != 0
  {
    var q := (if x < 0 then -x else x) / (if y < 0 then -y else y);
    if (x < 0) == (y < 0) then q else -q
  }

  function TruncRem(x: int, y: int): int
    requires y != 0
  {
    x - TruncDiv(x, y) * y
  }

  function SignExtend8(b: Word): Word { if b < 0x80 then b else Wrap(b - 0x100) }
  function SignExtend16(h: Word): Word { if h < 0x8000 then h else Wrap(h - 0x1_0000) }

  function Flag(b: bool): Word { if b then 1 else 0 }

  /** The simulator's overflow test, as written: it compares the sign of the first operand with
      that of the second, and with that of the destination's register number. */
  predicate TakenForOverflow(s: Word, t: Word, wbr: RegNo) {
    Or(Xor(s, t), Xor(s, wbr)) >= 0x8000_0000
  }

  // ---------------------------------------------------------------------------
  // Execution. The state has already been advanced past the instruction: pc is the address of the
  // delay slot, and pcNext the one after it.

  /** Enters an exception at the given vector; the next instruction is annulled. */
  function Trap(s: Arch, exc: nat, at: Word, slot: bool, vector: Word): Out {
    Done(s.(cause := Cause(exc, slot), cp0 := s.cp0[CP0_EPC := Wrap(at - if slot then 4 else 0)],
         pcNext := vector, annul := true, status := s.status.(exl := true)), 0, FILLER)
  }

  function Jump(s: Arch, target: Word): Arch {
    s.(pcNext := target, delay := true)
  }

  function BranchTarget(pc: Word, i: Word): Word {
    Wrap(pc + 4 * SImm(i))
  }

  function Branch(s: Arch, taken: bool, i: Word): Arch {
    Jump(s, if taken then BranchTarget(s.pc, i) else s.pcNext)
  }

  function RegionTarget(pc: Word, i: Word): Word {
    Or(And(pc, 0xF000_0000), 4 * Offset(i))
  }

  function AddTrapping(s: Arch, at: Word, slot: bool, i: Word, a: Word, b: Word): Out {
    if TakenForOverflow(a, b, Rd(i)) then Trap(s, EXC_OV, at, slot, OVERFLOW_VECTOR)
    else Done(s, Rd(i), Wrap(a + b))
  }

  function Divide(s: Arch, i: Word, a: Word, b: Word): Out {
    if b == 0 then Done(s.(hi := a, lo := 0), Rd(i), FILLER)
    else if a == 0x8000_0000 && b == 0xFFFF_FFFF then Halted(Unmodelled)
    else Done(s.(hi := Wrap(TruncRem(Signed(a), Signed(b))), lo := Wrap(TruncDiv(Signed(a), Signed(b)))), Rd(i), FILLER)
  }

  function DivideUnsigned(s: Arch, i: Word, a: Word, b: Word): Out {
    Done(if b == 0 then s.(hi := a, lo := 0) else s.(hi := Wrap(a % b), lo := Wrap(a / b)), Rd(i), FILLER)
  }

  function ExecuteSpecial(s: Arch, at: Word, slot: bool, i: Word, a: Word, b: Word): Out {
    var f, rd := Funct(i), Rd(i);
    if f == SLL then Done(s, rd, Shl(b, Sa(i)))
    else if f == SRL then Done(s, rd, Shr(b, Sa(i)))
    else if f == SRA then Done(s, rd, Sar(b, Sa(i)))
    else if f == SLLV then Done(s, rd, Shl(b, a % 32))
    else if f == SRLV then Done(s, rd, Shr(b, a % 32))
    else if f == SRAV then Done(s, rd, Sar(b, a % 32))
    else if f == JR then Done(Jump(s, a), rd, FILLER)
    else if f == JALR then Done(Jump(s, a), rd, s.pcNext)
    else if f == BREAK then Trap(s, EXC_BP, at, slot, BREAK_VECTOR)
    else if f == MFHI then Done(s, rd, s.hi)
    else if f == MTHI then Done(s.(hi := a), rd, FILLER)
    else if f == MFLO then Done(s, rd, s.lo)
    else if f == MTLO then Done(s.(lo := a), rd, FILLER)
    else if f == MULT then
      var p := Signed(a) * Signed(b);
      Done(s.(hi := Wrap(p / 0x1_0000_0000), lo := Wrap(p)), rd, FILLER)
    else if f == MULTU then
      var p := a * b;
      Done(s.(hi := Wrap(p / 0x1_0000_0000), lo := Wrap(p)), rd, FILLER)
    else if f == DIV then Divide(s, i, a, b)
    else if f == DIVU then DivideUnsigned(s, i, a, b)
    else if f == ADD then AddTrapping(s, at, slot, i, a, b)
    else if f == SUB then AddTrapping(s, at, slot, i, a, Neg(b))
    else if f == ADDU then Done(s, rd, Wrap(a + b))
    else if f == SUBU then Done(s, rd, Wrap(a - b))
    else if f == AND then Done(s, rd, And(a, b))
    else if f == OR then Done(s, rd, Or(a, b))
    else if f == XOR then Done(s, rd, Xor(a, b))
    else if f == NOR then Done(s, rd, Not(Or(a, b)))
    else if f == SLT then Done(s, rd, Flag(Signed(a) < Signed(b)))
    else if f == SLTU then Done(s, rd, Flag(a < b))
    else if f == TEQ then if a == b then Halted(Fatal) else Done(s, rd, FILLER)
    else Halted(Fatal)
  }

  function ExecuteRegimm(s: Arch, i: Word, a: Word): Out {
    var v := Rt(i);
    if v == BLTZAL || v == BLTZ then
      Done(Branch(s, Signed(a) < 0, i), if v == BLTZAL then 31 else 0, s.pcNext)
    else if v == BGEZAL || v == BGEZ then
      Done(Branch(s, Signed(a) >= 0, i), if v == BGEZAL then 31 else 0, s.pcNext)
    else if v == SYNCI then Done(s, 0, s.pcNext)
    else Halted(Fatal)
  }

  function ExecuteCp0(s: Arch, i: Word, b: Word): Out {
    if Rs(i) >= 16 then
      if Funct(i) != C0_ERET then Done(s, Rt(i), FILLER)
      else if s.status.erl then
        Done(s.(annul := true, pcNext := s.cp0[CP0_ERROREPC], status := s.status.(erl := false)), Rt(i), FILLER)
      else
        Done(s.(annul := true, pcNext := s.cp0[CP0_EPC], status := s.status.(exl := false)), Rt(i), FILLER)
    else if Funct(i) != 0 then Halted(Fatal)
    else if Rs(i) / 4 % 2 == 1 then
      var s1 := s.(cp0 := s.cp0[Rd(i) := b]);
      Done(if Rd(i) == CP0_STATUS then s1.(status := Status(b / 2 % 2 == 1, b / 4 % 2 == 1)) else s1, 0, FILLER)
    else Done(s, Rt(i), s.cp0[Rd(i)])
  }

  function ExecuteCp2(s: Arch, i: Word): Out {
    if i == 0x4800_0000 then Halted(Exit)
    else if Rs(i) >= 16 || Rs(i) / 4 % 2 == 1 then Done(s, Rt(i), FILLER)
    else if Rd(i) == PERF_RETIRED_INST then Halted(Unmodelled)
    else Done(s, Rt(i), if Rd(i) == PERF_FREQUENCY then 75000 else 0)
  }

  /** Hardware registers: the number of processors, the line size of the instruction cache, the
      free-running counter (not modelled), and the cycles of one count. */
  function ExecuteRdhwr(s: Arch, i: Word): Out {
    if Funct(i) != 59 || Rd(i) > 3 then Halted(Fatal)
    else if Rd(i) == 2 then Halted(Unmodelled)
    else Done(s, Rt(i), if Rd(i) == 0 then 1 else 16)
  }

  /** LWL and SWL shift by this many bits, LWR and SWR by 24 minus it. */
  function LeftShift(address: Word): (sh: nat)
    ensures sh <= 24
  {
    address % 4 * 8
  }

  function MergeLeft(w: Word, t: Word, sh: nat): Word {
    Or(Shl(w, sh), And(Not(Shl(0xFFFF_FFFF, sh)), t))
  }

  function MergeRight(w: Word, t: Word, sh: nat): Word {
    Or(Shr(w, sh), And(Not(Shr(0xFFFF_FFFF, sh)), t))
  }

  predicate IsLoad(op: nat) {
    LB <= op <= LWR
  }

  function LoadResult(op: nat, w: Word, address: Word, b: Word): Word {
    if op == LB then SignExtend8(w)
    else if op == LH then SignExtend16(w)
    else if op == LWL then MergeLeft(w, b, LeftShift(address))
    else if op == LWR then MergeRight(w, b, 24 - LeftShift(address))
    else w
  }

  function ExecuteLoad(s: Arch, i: Word, address: Word, b: Word): Out
    requires IsLoad(Opcode(i))
  {
    var op := Opcode(i);
    var r := if op == LB || op == LBU then Load(s.mem, address, 1, false)
             else if op == LH || op == LHU then Load(s.mem, address, 2, false)
             else if op == LW then Load(s.mem, address, 4, false)
             else Load(s.mem, WordBase(address), 4, false);
    match r
    case Value(w) => Done(s, Rt(i), LoadResult(op, w, address, b))
    case Fault(why) => Halted(why)
  }

  predicate IsStore(op: nat) {
    SB <= op <= SW || op == SWR
  }

  function ExecuteStore(s: Arch, i: Word, address: Word, b: Word): Out
    requires IsStore(Opcode(i))
  {
    var op := Opcode(i);
    if op == SB then StoreDone(s, Store(s.mem, address, b, 1))
    else if op == SH then StoreDone(s, Store(s.mem, address, b, 2))
    else if op == SW then StoreDone(s, Store(s.mem, address, b, 4))
    else
      match Load(s.mem, WordBase(address), 4, false)
      case Fault(why) => Halted(why)
      case Value(w) =>
        var v := if op == SWL then MergeRight(b, w, LeftShift(address))
                 else MergeLeft(b, w, 24 - LeftShift(address));
        StoreDone(s, Store(s.mem, WordBase(address), v, 4))
  }

  function StoreDone(s: Arch, r: Stored): Out {
    match r
    case Stored(m) => Done(s.(mem := m), 0, FILLER)
    case StoreFault(why) => Halted(why)
  }

  /** Executes instruction i, fetched at `at`, with operands a and b. */
  function Execute(s: Arch, at: Word, slot: bool, i: Word, a: Word, b: Word, probe: Word): Out {
    var op := Opcode(i);
    var address := Wrap(a + SImm(i));
    if op == SPECIAL then ExecuteSpecial(s, at, slot, i, a, b)
    else if op == REGIMM then ExecuteRegimm(s, i, a)
    else if op == JAL then Done(Jump(s, RegionTarget(s.pc, i)), 31, s.pcNext)
    else if op == J then Done(Jump(s, RegionTarget(s.pc, i)), 0, FILLER)
    else if op == BEQ then
      if i == ENDLESS_LOOP && probe == 0 then Halted(Exit) else Done(Branch(s, a == b, i), 0, FILLER)
    else if op == BNE then Done(Branch(s, a != b, i), 0, FILLER)
    else if op == BLEZ then Done(Branch(s, 0 >= Signed(a), i), 0, FILLER)
    else if op == BGTZ then Done(Branch(s, 0 < Signed(a), i), 0, FILLER)
    else if op == ADDI || op == ADDIU then Done(s, Rt(i), address)
    else if op == SLTI then Done(s, Rt(i), Flag(Signed(a) < SImm(i)))
    else if op == SLTIU then Done(s, Rt(i), Flag(a < Wrap(SImm(i))))
    else if op == ANDI then Done(s, Rt(i), And(a, UImm(i)))
    else if op == ORI then Done(s, Rt(i), Or(a, UImm(i)))
    else if op == XORI then Done(s, Rt(i), Xor(a, UImm(i)))
    else if op == LUI then Done(s, Rt(i), UImm(i) * 0x1_0000)
    else if op == CP0 then ExecuteCp0(s, i, b)
    else if op == CP2 then ExecuteCp2(s, i)
    else if op == RDHWR then ExecuteRdhwr(s, i)
    else if IsLoad(op) then ExecuteLoad(s, i, address, b)
    else if IsStore(op) then ExecuteStore(s, i, address, b)
    else if op == LWC1 then Halted(Unmodelled)
    else Halted(Fatal)
  }

  // ---------------------------------------------------------------------------
  // The register-use map

  const USE_RS := 1
  const USE_RT := 2
  const USE_RT_LATE := 4

  /** The map's index of an instruction. */
  function UseIndex(i: Word): (x: nat)
    ensures x < 256
  {
    if Opcode(i) == SPECIAL then 64 + Funct(i)
    else if Opcode(i) == REGIMM then 128 + Rt(i)
    else OpcodeRange(i); Opcode(i)
  }

  lemma OpcodeRange(i: Word)
    ensures Opcode(i) < 64
  {
  }

  /** The fields an instruction is said to use. */
  function RegUse(x: nat): nat {
    if x >= 128 then if x < 160 then USE_RS else USE_RS + USE_RT
    else if x >= 64 then if x == 64 + SYSCALL || x == 64 + BREAK then 0 else USE_RS + USE_RT
    else if x == J || x == JAL || x == LUI then 0
    else if ADDI <= x <= XORI then USE_RS
    else if CP0 <= x <= CP1X then USE_RT
    else if x == LWL || x == LWR then USE_RS + USE_RT_LATE
    else if LB <= x <= LHU then USE_RS
    else if SB <= x <= SW || x == SWR then USE_RS + USE_RT_LATE
    else if 47 <= x <= 51 || x == 53 || x == 54 then USE_RS
    else if 56 <= x <= 58 || x == 61 || x == 62 then USE_RS + USE_RT_LATE
    else USE_RS + USE_RT
  }

  predicate UsesRs(i: Word) {
    RegUse(UseIndex(i)) % 2 == 1
  }

  predicate UsesRt(i: Word) {
    RegUse(UseIndex(i)) / 2 > 0
  }

  /** The operands the step computes with: a register the map does not mark is replaced. */
  function OperandS(r: Regs, i: Word): Word {
    if UsesRs(i) then r[Rs(i)] else POISON_S
  }

  function OperandT(r: Regs, i: Word): Word {
    if UsesRt(i) then r[Rt(i)] else POISON_T
  }

  // ---------------------------------------------------------------------------
  // The step, given the fetched words

  function Advance(s: Arch): Arch {
    s.(pc := s.pcNext, pcNext := Wrap(s.pcNext + 4), delay := false, annul := false)
  }

  function WriteBack(o: Out): Result {
    match o
    case Halted(why) => Stop(why)
    case Done(s, wbr, wbv) => Go(if wbr == 0 then s else s.(r := s.r[wbr := wbv]))
  }

  function Exec(s: Arch, i: Word, probe: Word): Result {
    WriteBack(Execute(Advance(s), s.pc, s.delay, i, OperandS(s.r, i), OperandT(s.r, i), probe))
  }

  /** The address a load, a store or SYNCI computes. */
  function DataAddress(s: Arch, i: Word): Word {
    Wrap(OperandS(s.r, i) + SImm(i))
  }

  predicate IsSynci(i: Word) {
    Opcode(i) == REGIMM && Rt(i) == SYNCI
  }

  /** Whether the step also fetches the word two places on, to recognise the end of a program. */
  predicate Probes(i: Word) {
    i == ENDLESS_LOOP
  }

  function ProbeAddress(s: Arch): Word {
    Wrap(s.pcNext + 4)
  }

  /** The step of a load or store. */
  lemma MemoryExec(s: Arch, i: Word, probe: Word)
    ensures IsLoad(Opcode(i)) ==>
              Exec(s, i, probe) == WriteBack(ExecuteLoad(Advance(s), i, DataAddress(s, i), OperandT(s.r, i)))
    ensures IsStore(Opcode(i)) ==>
              Exec(s, i, probe) == WriteBack(ExecuteStore(Advance(s), i, DataAddress(s, i), OperandT(s.r, i)))
  {
    hide OperandS, OperandT, Opcode, SImm, Wrap, ExecuteLoad, ExecuteStore, ExecuteSpecial, ExecuteRegimm;
  }
}
