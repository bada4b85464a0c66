/** Instruction words as an assembler writes them: the fields in their places, and the simulator's
    decoding of them. */
module Encoding {
  import opened Words
  import opened Cpu

  type Half = x: int | 0 <= x < 0x1_0000

  /** Opcode, two registers and an immediate halfword. */
  function IFormat(op: int, rs: RegNo, rt: RegNo, imm: Half): (i: Word)
    requires 0 <= op < 64
  {
    op * 0x400_0000 + rs * 0x20_0000 + rt * 0x1_0000 + imm
  }

  /** The lower half of a word with a third register, a shift amount and a function. */
  function LowerHalf(rd: RegNo, sa: RegNo, funct: int): Half
    requires 0 <= funct < 64
  {
    rd * 0x800 + sa * 0x40 + funct
  }

  /** A word with three registers. */
  function RFormat(op: int, rs: RegNo, rt: RegNo, rd: RegNo, sa: RegNo, funct: int): Word
    requires 0 <= op < 64 && 0 <= funct < 64
  {
    IFormat(op, rs, rt, LowerHalf(rd, sa, funct))
  }

  /** Opcode and a jump offset. */
  function JFormat(op: int, offset: int): Word
    requires 0 <= op < 64 && 0 <= offset < 0x400_0000
  {
    op * 0x400_0000 + offset
  }

  lemma UpperHalf(op: int, rs: RegNo, rt: RegNo, imm: Half)
    requires 0 <= op < 64
    ensures var i := IFormat(op, rs, rt, imm); Upper(i) == (op * 32 + rs) * 32 + rt && UImm(i) == imm
  {
    DivModUnique(IFormat(op, rs, rt, imm), 0x1_0000, (op * 32 + rs) * 32 + rt, imm);
  }

  lemma UpperFields(op: int, rs: RegNo, rt: RegNo, imm: Half)
    requires 0 <= op < 64
    ensures var i := IFormat(op, rs, rt, imm); Opcode(i) == op && Rs(i) == rs && Rt(i) == rt
  {
    UpperHalf(op, rs, rt, imm);
    DivModUnique((op * 32 + rs) * 32 + rt, 32, op * 32 + rs, rt);
    DivModUnique(op * 32 + rs, 32, op, rs);
    hide Upper;
  }

  /** The decoder finds the fields the assembler put in. */
  lemma ImmediateFields(op: int, rs: RegNo, rt: RegNo, imm: Half)
    requires 0 <= op < 64
    ensures var i := IFormat(op, rs, rt, imm); Opcode(i) == op && Rs(i) == rs && Rt(i) == rt && UImm(i) == imm
    ensures -0x8000 <= SImm(IFormat(op, rs, rt, imm)) < 0x8000
    ensures (SImm(IFormat(op, rs, rt, imm)) - imm) % 0x1_0000 == 0
  {
    UpperFields(op, rs, rt, imm);
    UpperHalf(op, rs, rt, imm);
    hide IFormat, UImm, Upper, Opcode, Rs, Rt;
    DivModUnique(if imm < 0x8000 then 0 else -0x1_0000, 0x1_0000, if imm < 0x8000 then 0 else -1, 0);
  }

  lemma RegisterFields(op: int, rs: RegNo, rt: RegNo, rd: RegNo, sa: RegNo, funct: int)
    requires 0 <= op < 64 && 0 <= funct < 64
    ensures var i := RFormat(op, rs, rt, rd, sa, funct);
            Opcode(i) == op && Rs(i) == rs && Rt(i) == rt && Rd(i) == rd && Sa(i) == sa && Funct(i) == funct
  {
    var imm := LowerHalf(rd, sa, funct);
    ImmediateFields(op, rs, rt, imm);
    DivModUnique(imm, 64, rd * 32 + sa, funct);
    DivModUnique(rd * 32 + sa, 32, rd, sa);
    hide IFormat, Opcode, Upper, Rs, Rt, UImm;
  }

  lemma JumpFields(op: int, offset: int)
    requires 0 <= op < 64 && 0 <= offset < 0x400_0000
    ensures Opcode(JFormat(op, offset)) == op && Offset(JFormat(op, offset)) == offset
  {
    var i := JFormat(op, offset);
    DivModUnique(i, 0x400_0000, op, offset);
    var u, imm := offset / 0x1_0000, offset % 0x1_0000;
    assert u < 0x400;
    var rs, rt := u / 32, u % 32;
    assert i == IFormat(op, rs, rt, imm);
    UpperFields(op, rs, rt, imm);
    hide IFormat, Opcode;
  }
}
