/** What the instructions do, by their codes in the architecture's opcode maps and in numbers and
    bits: the reference that the simulator's switch is held against. */
module InstructionSet {
  import opened Words
  import opened Memory
  import opened Cpu
  import opened Encoding
  import Arithmetic
  import Overflow

  // ---------------------------------------------------------------------------
  // The next state

  /** The turn after an instruction that is neither a branch nor an exception: one register has a new
      value, and the program counters have moved on. */
  function Next(s: Arch, rd: RegNo, v: Word): Arch {
    s.(r := if rd == 0 then s.r else s.r[rd := v], pc := s.pcNext, pcNext := (s.pcNext + 4) % 0x1_0000_0000,
       delay := false, annul := false)
  }

  /** The two's complement reading is the number in range that is the word modulo 2^32. */
  lemma SignedIs(w: Word)
    ensures -0x8000_0000 <= Signed(w) < 0x8000_0000 && (Signed(w) - w) % 0x1_0000_0000 == 0
  {
  }

  // ---------------------------------------------------------------------------
  // Bits

  /** Bit k of a word. */
  predicate Bit(w: Word, k: nat) {
    w / Pow2(k) % 2 == 1
  }

  lemma {:induction false} BitOfBits(op: BitOp, n: nat, x: nat, y: nat, k: nat)
    requires x < Pow2(n) && y < Pow2(n) && k < n
    ensures Bits(op, n, x, y) / Pow2(k) % 2 == 1 <==> OnBits(op, x / Pow2(k) % 2 == 1, y / Pow2(k) % 2 == 1)
  {
    var r := Bits(op, n, x, y);
    BitsHalf(op, n, x, y);
    hide Bits, OnBits;
    BitHalf(r, k);
    BitHalf(x, k);
    BitHalf(y, k);
    if k > 0 {
      hide Pow2;
      BitOfBits(op, n - 1, x / 2, y / 2, k - 1);
    }
  }

  lemma BitsHalf(op: BitOp, n: nat, x: nat, y: nat)
    requires 0 < n && x < Pow2(n) && y < Pow2(n)
    ensures x / 2 < Pow2(n - 1) && y / 2 < Pow2(n - 1)
    ensures Bits(op, n, x, y) / 2 == Bits(op, n - 1, x / 2, y / 2)
    ensures Bits(op, n, x, y) % 2 == 1 <==> OnBits(op, x % 2 == 1, y % 2 == 1)
  {
    hide OnBits;
    var bit := if OnBits(op, x % 2 == 1, y % 2 == 1) then 1 else 0;
    DivModUnique(Bits(op, n, x, y), 2, Bits(op, n - 1, x / 2, y / 2), bit);
  }

  /** Bit k of a number is bit k - 1 of its half. */
  lemma BitHalf(x: nat, k: nat)
    ensures x / Pow2(k) == if k == 0 then x else x / 2 / Pow2(k - 1)
  {
    if k > 0 {
      HalfThenDivide(x, Pow2(k - 1));
    }
  }

  lemma BitOfWord(x: Word, y: Word, k: nat)
    requires k < 32
    ensures Bit(And(x, y), k) <==> Bit(x, k) && Bit(y, k)
    ensures Bit(Or(x, y), k) <==> Bit(x, k) || Bit(y, k)
    ensures Bit(Xor(x, y), k) <==> Bit(x, k) != Bit(y, k)
  {
    Pow2Values();
    BitOfBits(BitAnd, 32, x, y, k);
    BitOfBits(BitOr, 32, x, y, k);
    BitOfBits(BitXor, 32, x, y, k);
    hide Bits, Pow2;
  }

  lemma {:induction false} BitOfNot(n: nat, x: nat, k: nat)
    requires x < Pow2(n) && k < n
    ensures (Pow2(n) - 1 - x) / Pow2(k) % 2 == 1 <==> x / Pow2(k) % 2 != 1
  {
    var r := Pow2(n) - 1 - x;
    DivModUnique(r, 2, Pow2(n - 1) - 1 - x / 2, 1 - x % 2);
    BitHalf(r, k);
    BitHalf(x, k);
    if k > 0 {
      BitOfNot(n - 1, x / 2, k - 1);
    }
  }

  lemma BitOfComplement(x: Word, k: nat)
    requires k < 32
    ensures Bit(Not(x), k) <==> !Bit(x, k)
  {
    Pow2Values();
    BitOfNot(32, x, k);
    hide Pow2;
  }

  // ---------------------------------------------------------------------------
  // Three registers

  datatype Op3 = Addu | Subu | And3 | Or3 | Xor3 | Nor | Slt | Sltu | Sllv | Srlv | Srav

  /** The function codes. */
  function Code3(op: Op3): nat {
    match op
    case Sllv => 0x04
    case Srlv => 0x06
    case Srav => 0x07
    case Addu => 0x21
    case Subu => 0x23
    case And3 => 0x24
    case Or3 => 0x25
    case Xor3 => 0x26
    case Nor => 0x27
    case Slt => 0x2A
    case Sltu => 0x2B
  }

  /** What the destination holds afterwards, for the values a of rs and b of rt. */
  ghost predicate Result3(op: Op3, a: Word, b: Word, v: Word) {
    match op
    case Addu => (v - a - b) % 0x1_0000_0000 == 0
    case Subu => (v + b - a) % 0x1_0000_0000 == 0
    case And3 => forall k: nat :: k < 32 ==> (Bit(v, k) <==> Bit(a, k) && Bit(b, k))
    case Or3 => forall k: nat :: k < 32 ==> (Bit(v, k) <==> Bit(a, k) || Bit(b, k))
    case Xor3 => forall k: nat :: k < 32 ==> (Bit(v, k) <==> Bit(a, k) != Bit(b, k))
    case Nor => forall k: nat :: k < 32 ==> (Bit(v, k) <==> !Bit(a, k) && !Bit(b, k))
    case Slt => v == if Signed(a) < Signed(b) then 1 else 0
    case Sltu => v == if a < b then 1 else 0
    case Sllv => v == b * Pow2(a % 32) % 0x1_0000_0000
    case Srlv => v == b / Pow2(a % 32)
    case Srav => Signed(v) == Signed(b) / Pow2(a % 32)
  }

  function Value3(op: Op3, a: Word, b: Word): Word {
    match op
    case Addu => Wrap(a + b)
    case Subu => Wrap(a - b)
    case And3 => And(a, b)
    case Or3 => Or(a, b)
    case Xor3 => Xor(a, b)
    case Nor => Not(Or(a, b))
    case Slt => Flag(Signed(a) < Signed(b))
    case Sltu => Flag(a < b)
    case Sllv => Shl(b, a % 32)
    case Srlv => Shr(b, a % 32)
    case Srav => Sar(b, a % 32)
  }

  lemma WrapIs(v: Word, x: int)
    requires v == Wrap(x)
    ensures (v - x) % 0x1_0000_0000 == 0
  {
    DivModUnique(v - x, 0x1_0000_0000, -(x / 0x1_0000_0000), 0);
  }

  lemma SarIs(x: Word, n: nat)
    ensures Signed(Sar(x, n)) == Signed(x) / Pow2(n)
  {
    hide Pow2;
    QuotientSmaller(Signed(x), Pow2(n));
    Arithmetic.SignedOfWrap(Signed(x) / Pow2(n));
  }

  lemma QuotientSmaller(x: int, p: nat)
    requires p >= 1 && -0x8000_0000 <= x < 0x8000_0000
    ensures -0x8000_0000 <= x / p < 0x8000_0000
  {
    MulAtLeast(x / p, p);
  }

  lemma ResultOf3(op: Op3, a: Word, b: Word)
    ensures Result3(op, a, b, Value3(op, a, b))
  {
    hide Wrap, And, Or, Xor, Not, Shl, Shr, Sar, Signed, Bit, Pow2;
    var v := Value3(op, a, b);
    match op
    case Addu => WrapIs(v, a + b);
    case Subu => WrapIs(v, a - b);
    case And3 => forall k: nat | k < 32 ensures Bit(v, k) <==> Bit(a, k) && Bit(b, k) { BitOfWord(a, b, k); }
    case Or3 => forall k: nat | k < 32 ensures Bit(v, k) <==> Bit(a, k) || Bit(b, k) { BitOfWord(a, b, k); }
    case Xor3 => forall k: nat | k < 32 ensures Bit(v, k) <==> Bit(a, k) != Bit(b, k) { BitOfWord(a, b, k); }
    case Nor =>
      forall k: nat | k < 32 ensures Bit(v, k) <==> !Bit(a, k) && !Bit(b, k) {
        BitOfWord(a, b, k);
        BitOfComplement(Or(a, b), k);
      }
    case Slt =>
    case Sltu =>
    case Sllv => ShlProduct(b, a % 32);
    case Srlv => ShrIsQuotient(b, a % 32);
    case Srav => SarIs(b, a % 32);
  }

  lemma ShlProduct(x: Word, n: nat)
    ensures Shl(x, n) == x * Pow2(n) % 0x1_0000_0000
  {
    ShlIsProduct(x, n);
    hide Shl, Pow2;
  }

  lemma Executes3(s: Arch, at: Word, slot: bool, i: Word, op: Op3, a: Word, b: Word)
    requires Funct(i) == Code3(op)
    ensures ExecuteSpecial(s, at, slot, i, a, b) == Done(s, Rd(i), Value3(op, a, b))
  {
    hide Rd, Sa, Funct, Wrap, Xor, And, Or, Not, Shl, Shr, Sar, Neg, Signed, Flag, Divide, DivideUnsigned;
    hide AddTrapping, Trap;
  }

  /** Every instruction on three registers leaves its result in rd, and goes on. */
  lemma ThreeRegisters(s: Arch, op: Op3, rs: RegNo, rt: RegNo, rd: RegNo) returns (v: Word)
    ensures Result3(op, s.r[rs], s.r[rt], v)
    ensures Exec(s, RFormat(0, rs, rt, rd, 0, Code3(op)), 0) == Go(Next(s, rd, v))
  {
    hide RFormat, ExecuteSpecial, Value3, Result3, Opcode, Funct, Rs, Rt, Rd, Exec;
    var i := RFormat(0, rs, rt, rd, 0, Code3(op));
    RegisterFields(0, rs, rt, rd, 0, Code3(op));
    Arithmetic.RegisterStep(s, i);
    Executes3(Advance(s), s.pc, s.delay, i, op, s.r[rs], s.r[rt]);
    ResultOf3(op, s.r[rs], s.r[rt]);
    v := Value3(op, s.r[rs], s.r[rt]);
  }

  // ---------------------------------------------------------------------------
  // Shifts by a constant

  datatype Shift = Sll | Srl | Sra

  function ShiftCode(op: Shift): nat {
    match op
    case Sll => 0x00
    case Srl => 0x02
    case Sra => 0x03
  }

  ghost predicate ShiftResult(op: Shift, sa: RegNo, b: Word, v: Word) {
    match op
    case Sll => v == b * Pow2(sa) % 0x1_0000_0000
    case Srl => v == b / Pow2(sa)
    case Sra => Signed(v) == Signed(b) / Pow2(sa)
  }

  lemma ConstantShift(s: Arch, op: Shift, rt: RegNo, rd: RegNo, sa: RegNo) returns (v: Word)
    ensures ShiftResult(op, sa, s.r[rt], v)
    ensures Exec(s, RFormat(0, 0, rt, rd, sa, ShiftCode(op)), 0) == Go(Next(s, rd, v))
  {
    hide RFormat, Opcode, Funct, Rs, Rt, Rd, Sa, Exec, Shl, Shr, Sar, Signed, Pow2;
    var i, b := RFormat(0, 0, rt, rd, sa, ShiftCode(op)), s.r[rt];
    RegisterFields(0, 0, rt, rd, sa, ShiftCode(op));
    Arithmetic.RegisterStep(s, i);
    match op
    case Sll => v := Shl(b, sa); ShlProduct(b, sa);
    case Srl => v := Shr(b, sa); ShrIsQuotient(b, sa);
    case Sra => v := Sar(b, sa); SarIs(b, sa);
  }

  // ---------------------------------------------------------------------------
  // HI and LO

  /** MFHI and MFLO read HI and LO; MTHI and MTLO write one of them and keep the other. */
  lemma HiLoMoves(s: Arch, rs: RegNo, rd: RegNo)
    ensures Exec(s, RFormat(0, 0, 0, rd, 0, 0x10), 0) == Go(Next(s, rd, s.hi))
    ensures Exec(s, RFormat(0, rs, 0, 0, 0, 0x11), 0) == Go(Next(s, 0, 0).(hi := s.r[rs]))
    ensures Exec(s, RFormat(0, 0, 0, rd, 0, 0x12), 0) == Go(Next(s, rd, s.lo))
    ensures Exec(s, RFormat(0, rs, 0, 0, 0, 0x13), 0) == Go(Next(s, 0, 0).(lo := s.r[rs]))
  {
    hide RFormat, Opcode, Funct, Rs, Rt, Rd, Exec;
    RegisterFields(0, 0, 0, rd, 0, 0x10);
    RegisterFields(0, rs, 0, 0, 0, 0x11);
    RegisterFields(0, 0, 0, rd, 0, 0x12);
    RegisterFields(0, rs, 0, 0, 0, 0x13);
    Arithmetic.RegisterStep(s, RFormat(0, 0, 0, rd, 0, 0x10));
    Arithmetic.RegisterStep(s, RFormat(0, rs, 0, 0, 0, 0x11));
    Arithmetic.RegisterStep(s, RFormat(0, 0, 0, rd, 0, 0x12));
    Arithmetic.RegisterStep(s, RFormat(0, rs, 0, 0, 0, 0x13));
  }

  /** A product or quotient changes HI and LO only, and a register if its reserved field names one;
      only the division that does not fit stops. */
  lemma HiLoStep(s: Arch, rs: RegNo, rt: RegNo, rd: RegNo, f: nat)
    requires 0x18 <= f <= 0x1B
    ensures var r := Exec(s, RFormat(0, rs, rt, rd, 0, f), 0);
            if f == 0x1A && s.r[rs] == 0x8000_0000 && s.r[rt] == 0xFFFF_FFFF then r == Stop(Unmodelled)
            else r.Go? && r.s == Next(s, rd, 0xDEAD_BEEF).(hi := r.s.hi, lo := r.s.lo)
  {
    hide RFormat, Opcode, Funct, Rs, Rt, Rd, Exec, Signed, TruncDiv, TruncRem;
    RegisterFields(0, rs, rt, rd, 0, f);
    Arithmetic.RegisterStep(s, RFormat(0, rs, rt, rd, 0, f));
  }

  /** The products. */
  lemma Products(s: Arch, rs: RegNo, rt: RegNo)
    ensures var r := Exec(s, RFormat(0, rs, rt, 0, 0, 0x18), 0);
            r.Go? && Signed(r.s.hi) * 0x1_0000_0000 + r.s.lo == Signed(s.r[rs]) * Signed(s.r[rt])
    ensures var r := Exec(s, RFormat(0, rs, rt, 0, 0, 0x19), 0);
            var a: int, b: int := s.r[rs], s.r[rt];
            r.Go? && r.s.hi * 0x1_0000_0000 + r.s.lo == a * b
  {
    hide RFormat, Opcode, Funct, Rs, Rt, Rd, Exec;
    RegisterFields(0, rs, rt, 0, 0, 0x18);
    RegisterFields(0, rs, rt, 0, 0, 0x19);
    Arithmetic.MultIsProduct(s, RFormat(0, rs, rt, 0, 0, 0x18));
    Arithmetic.MultuIsProduct(s, RFormat(0, rs, rt, 0, 0, 0x19));
  }

  /** The quotients and remainders. */
  lemma Quotients(s: Arch, rs: RegNo, rt: RegNo, signed: bool)
    ensures var r := Exec(s, RFormat(0, rs, rt, 0, 0, if signed then 0x1A else 0x1B), 0);
            r.Go? ==>
              if s.r[rt] == 0 then r.s.hi == s.r[rs] && r.s.lo == 0
              else if signed then
                Arithmetic.TruncatingDivision(Signed(s.r[rs]), Signed(s.r[rt]), Signed(r.s.lo), Signed(r.s.hi))
              else s.r[rs] == r.s.lo * s.r[rt] + r.s.hi && r.s.hi < s.r[rt]
  {
    hide RFormat, Opcode, Funct, Rs, Rt, Rd, Exec, Arithmetic.TruncatingDivision;
    var i := RFormat(0, rs, rt, 0, 0, if signed then 0x1A else 0x1B);
    RegisterFields(0, rs, rt, 0, 0, if signed then 0x1A else 0x1B);
    if Exec(s, i, 0).Go? {
      if signed {
        Arithmetic.DivIsTruncating(s, i, Exec(s, i, 0).s);
      } else {
        Arithmetic.DivuDivides(s, i, Exec(s, i, 0).s);
      }
    }
  }

  // ---------------------------------------------------------------------------
  // Trapping

  /** An exception taken: nothing is written to the registers, EPC points at the instruction or at
      the branch before it, and the next turn is annulled on the way to the vector. */
  function Trapped(s: Arch, code: nat, vector: Word): Arch {
    s.(cp0 := s.cp0[14 := if s.delay then (s.pc - 4) % 0x1_0000_0000 else s.pc], cause := Cause(code, s.delay),
       status := Status(true, s.status.erl), pc := s.pcNext, pcNext := vector, delay := false, annul := true)
  }

  /** ADD and SUB add, and trap when one of the words added is negative. */
  lemma TrappingSums(s: Arch, rs: RegNo, rt: RegNo, rd: RegNo, minus: bool)
    ensures var a: int, t: int := s.r[rs], s.r[rt];
            var b: int := if minus then (0x1_0000_0000 - t) % 0x1_0000_0000 else t;
            Exec(s, RFormat(0, rs, rt, rd, 0, if minus then 0x22 else 0x20), 0) ==
            if a >= 0x8000_0000 || b >= 0x8000_0000 then Go(Trapped(s, 12, 0xBFC0_0280)) else Go(Next(s, rd, a + b))
  {
    hide RFormat, Opcode, Funct, Rs, Rt, Rd, Exec, TakenForOverflow;
    var f := if minus then 0x22 else 0x20;
    RegisterFields(0, rs, rt, rd, 0, f);
    Arithmetic.RegisterStep(s, RFormat(0, rs, rt, rd, 0, f));
    var a, b := s.r[rs], if minus then Neg(s.r[rt]) else s.r[rt];
    Overflow.OverflowTestSeesSigns(a, b, rd);
    WrapOnce(a + b);
    WrapOnce(s.pc);
  }

  /** BREAK traps. */
  lemma BreakTraps(s: Arch)
    ensures Exec(s, RFormat(0, 0, 0, 0, 0, 0x0D), 0) == Go(Trapped(s, 9, 0xBFC0_0380))
  {
    hide RFormat, Opcode, Funct, Rs, Rt, Rd, Exec;
    RegisterFields(0, 0, 0, 0, 0, 0x0D);
    BreakStep(s, RFormat(0, 0, 0, 0, 0, 0x0D));
  }

  /** TEQ ends the run when its registers are equal, and does nothing else. */
  lemma EqualTraps(s: Arch, rs: RegNo, rt: RegNo)
    ensures Exec(s, RFormat(0, rs, rt, 0, 0, 0x34), 0) == if s.r[rs] == s.r[rt] then Stop(Fatal) else Go(Next(s, 0, 0))
  {
    hide RFormat, Opcode, Funct, Rs, Rt, Rd, Exec;
    RegisterFields(0, rs, rt, 0, 0, 0x34);
    Arithmetic.RegisterStep(s, RFormat(0, rs, rt, 0, 0, 0x34));
  }

  /** SYSCALL ends the run. */
  lemma SyscallStops(s: Arch)
    ensures Exec(s, RFormat(0, 0, 0, 0, 0, 0x0C), 0) == Stop(Fatal)
  {
    hide RFormat, Opcode, Funct, Rs, Rt, Rd, Exec;
    RegisterFields(0, 0, 0, 0, 0, 0x0C);
    SyscallStep(s, RFormat(0, 0, 0, 0, 0, 0x0C));
  }

  lemma BreakStep(s: Arch, i: Word)
    requires Opcode(i) == 0 && Funct(i) == 0x0D
    ensures Exec(s, i, 0) == Go(Trapped(s, 9, 0xBFC0_0380))
  {
    hide Opcode, Funct, Rs, Rt, UsesRs, UsesRt;
    WrapOnce(s.pc);
  }

  lemma SyscallStep(s: Arch, i: Word)
    requires Opcode(i) == 0 && Funct(i) == 0x0C
    ensures Exec(s, i, 0) == Stop(Fatal)
  {
    hide Opcode, Funct, Rs, Rt, UsesRs, UsesRt;
  }

  // ---------------------------------------------------------------------------
  // Immediates

  datatype OpI = Addi | Addiu | Slti | Sltiu | Andi | Ori | Xori | Lui

  function CodeI(op: OpI): nat {
    match op
    case Addi => 0x08
    case Addiu => 0x09
    case Slti => 0x0A
    case Sltiu => 0x0B
    case Andi => 0x0C
    case Ori => 0x0D
    case Xori => 0x0E
    case Lui => 0x0F
  }

  /** What the destination holds afterwards, for the value a of rs. Sums and comparisons extend the
      sign of the immediate, also for the unsigned comparison; the bitwise operators do not. */
  ghost predicate ResultI(op: OpI, a: Word, imm: Half, v: Word) {
    var signed := if imm < 0x8000 then imm else imm - 0x1_0000;
    match op
    case Addi => (v - a - signed) % 0x1_0000_0000 == 0
    case Addiu => (v - a - signed) % 0x1_0000_0000 == 0
    case Slti => v == if Signed(a) < signed then 1 else 0
    case Sltiu => v == if a < signed % 0x1_0000_0000 then 1 else 0
    case Andi => forall k: nat :: k < 32 ==> (Bit(v, k) <==> Bit(a, k) && Bit(imm, k))
    case Ori => forall k: nat :: k < 32 ==> (Bit(v, k) <==> Bit(a, k) || Bit(imm, k))
    case Xori => forall k: nat :: k < 32 ==> (Bit(v, k) <==> Bit(a, k) != Bit(imm, k))
    case Lui => v == imm * 0x1_0000
  }

  function ValueI(op: OpI, a: Word, i: Word): Word {
    match op
    case Addi => Wrap(a + SImm(i))
    case Addiu => Wrap(a + SImm(i))
    case Slti => Flag(Signed(a) < SImm(i))
    case Sltiu => Flag(a < Wrap(SImm(i)))
    case Andi => And(a, UImm(i))
    case Ori => Or(a, UImm(i))
    case Xori => Xor(a, UImm(i))
    case Lui => Arithmetic.Halves(i); UImm(i) * 0x1_0000
  }

  lemma ResultOfI(op: OpI, a: Word, i: Word, imm: Half)
    requires UImm(i) == imm
    ensures ResultI(op, a, imm, ValueI(op, a, i))
  {
    hide Wrap, And, Or, Xor, Signed, Bit, Pow2, UImm;
    var v := ValueI(op, a, i);
    match op
    case Addi => WrapIs(v, a + SImm(i));
    case Addiu => WrapIs(v, a + SImm(i));
    case Slti =>
    case Sltiu => WrapSame(SImm(i));
    case Andi => forall k: nat | k < 32 ensures Bit(v, k) <==> Bit(a, k) && Bit(imm, k) { BitOfWord(a, imm, k); }
    case Ori => forall k: nat | k < 32 ensures Bit(v, k) <==> Bit(a, k) || Bit(imm, k) { BitOfWord(a, imm, k); }
    case Xori => forall k: nat | k < 32 ensures Bit(v, k) <==> Bit(a, k) != Bit(imm, k) { BitOfWord(a, imm, k); }
    case Lui =>
  }

  lemma WrapSame(x: int)
    ensures Wrap(x) == x % 0x1_0000_0000
  {
  }

  lemma ExecutesI(s: Arch, at: Word, slot: bool, i: Word, op: OpI, a: Word, b: Word)
    requires Opcode(i) == CodeI(op)
    ensures Execute(s, at, slot, i, a, b, 0) == Done(s, Rt(i), ValueI(op, a, i))
  {
    hide Wrap, SImm, UImm, And, Or, Xor, Signed, Flag, Opcode, Rt;
  }

  /** Every instruction on an immediate leaves its result in rt, and goes on. */
  lemma Immediates(s: Arch, op: OpI, rs: RegNo, rt: RegNo, imm: Half) returns (v: Word)
    ensures ResultI(op, s.r[rs], imm, v)
    ensures Exec(s, IFormat(CodeI(op), rs, rt, imm), 0) == Go(Next(s, rt, v))
  {
    var i := IFormat(CodeI(op), rs, rt, imm);
    ImmediateFields(CodeI(op), rs, rt, imm);
    var a := OperandS(s.r, i);
    assert op == Lui || a == s.r[rs];
    hide IFormat, Execute, ValueI, ResultI, Opcode, Rs, Rt, OperandS, OperandT, UImm, SImm;
    ExecutesI(Advance(s), s.pc, s.delay, i, op, a, OperandT(s.r, i));
    ResultOfI(op, a, i, imm);
    v := ValueI(op, a, i);
    LuiIgnores(op, a, s.r[rs], imm, v);
  }

  lemma LuiIgnores(op: OpI, a: Word, a': Word, imm: Half, v: Word)
    requires ResultI(op, a, imm, v) && (op == Lui || a == a')
    ensures ResultI(op, a', imm, v)
  {
  }
}
