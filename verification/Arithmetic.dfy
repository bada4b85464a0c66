/** What the computing instructions mean: the words they leave in the registers, against the
    numbers they stand for. */
module Arithmetic {
  import opened Words
  import opened Memory
  import opened Cpu

  // ---------------------------------------------------------------------------
  // Steps of the register instructions

  /** An instruction on registers that takes no exception, with its operands. */
  predicate Registers(i: Word) {
    Opcode(i) == SPECIAL && Funct(i) != BREAK && Funct(i) != SYSCALL
  }

  lemma RegisterStep(s: Arch, i: Word)
    requires Registers(i)
    ensures Exec(s, i, 0) ==
            WriteBack(ExecuteSpecial(Advance(s), s.pc, s.delay, i, s.r[Rs(i)], s.r[Rt(i)]))
  {
    assert UsesRs(i) && UsesRt(i) by {
      assert Funct(i) < 64;
    }
    hide ExecuteSpecial, Rs, Rt, Funct, UsesRs, UsesRt;
  }

  // ---------------------------------------------------------------------------
  // Multiplication and division

  lemma ProductBound(x: int, y: int, k: int)
    requires -k <= x <= k && -k <= y <= k
    ensures -(k * k) <= x * y <= k * k
  {
    assert (k - x) * (k + y) >= 0 && (k + x) * (k - y) >= 0;
    assert (k - x) * (k - y) >= 0 && (k + x) * (k + y) >= 0;
  }

  lemma SignedOfWrap(q: int)
    requires -0x8000_0000 <= q < 0x8000_0000
    ensures Signed(Wrap(q)) == q
  {
    if q < 0 {
      DivModUnique(q, 0x1_0000_0000, -1, q + 0x1_0000_0000);
    } else {
      DivModUnique(q, 0x1_0000_0000, 0, q);
    }
  }

  lemma QuotientRange(p: int)
    requires -0x4000_0000_0000_0000 <= p <= 0x4000_0000_0000_0000
    ensures -0x4000_0000 <= p / 0x1_0000_0000 <= 0x4000_0000
    ensures p == p / 0x1_0000_0000 * 0x1_0000_0000 + p % 0x1_0000_0000
  {
  }

  /** MULT leaves the exact signed product in HI and LO. */
  lemma MultIsProduct(s: Arch, i: Word)
    requires Registers(i) && Funct(i) == MULT && Rd(i) == 0
    ensures Exec(s, i, 0).Go?
    ensures var s' := Exec(s, i, 0).s;
            s'.r == s.r && Signed(s'.hi) * 0x1_0000_0000 + s'.lo == Signed(s.r[Rs(i)]) * Signed(s.r[Rt(i)])
  {
    RegisterStep(s, i);
    hide Exec, Rs, Rt, Rd, Funct, Signed;
    var x, y := Signed(s.r[Rs(i)]), Signed(s.r[Rt(i)]);
    SignedRange(s.r[Rs(i)]);
    SignedRange(s.r[Rt(i)]);
    ProductBound(x, y, 0x8000_0000);
    QuotientRange(x * y);
    SignedOfWrap(x * y / 0x1_0000_0000);
  }

  lemma SignedRange(w: Word)
    ensures -0x8000_0000 <= Signed(w) < 0x8000_0000
  {
  }

  lemma UnsignedProduct(a: int, b: int)
    requires 0 <= a < 0x1_0000_0000 && 0 <= b < 0x1_0000_0000
    ensures 0 <= a * b < 0x1_0000_0000_0000_0000
  {
    NonNegative(a, b);
    NonNegative(0x1_0000_0000 - a, b);
    assert (0x1_0000_0000 - a) * b == 0x1_0000_0000 * b - a * b;
  }

  lemma UnsignedQuotient(p: int)
    requires 0 <= p < 0x1_0000_0000_0000_0000
    ensures 0 <= p / 0x1_0000_0000 < 0x1_0000_0000
    ensures p == p / 0x1_0000_0000 * 0x1_0000_0000 + p % 0x1_0000_0000
  {
  }

  /** MULTU leaves the exact unsigned product. */
  lemma MultuIsProduct(s: Arch, i: Word)
    requires Registers(i) && Funct(i) == MULTU && Rd(i) == 0
    ensures Exec(s, i, 0).Go?
    ensures var s' := Exec(s, i, 0).s;
            var a: int, b: int := s.r[Rs(i)], s.r[Rt(i)];
            s'.r == s.r && s'.hi * 0x1_0000_0000 + s'.lo == a * b
  {
    RegisterStep(s, i);
    hide Exec, Rs, Rt, Rd, Funct;
    var a: int, b: int := s.r[Rs(i)], s.r[Rt(i)];
    UnsignedProduct(a, b);
    UnsignedQuotient(a * b);
    WrapOnce(a * b / 0x1_0000_0000);
  }

  /** Division that truncates: the quotient and remainder are determined by these. */
  ghost predicate TruncatingDivision(x: int, y: int, q: int, r: int) {
    x == q * y + r && -Abs(y) < r < Abs(y) && (r > 0 ==> x > 0) && (r < 0 ==> x < 0)
  }

  function Abs(x: int): (a: int)
    ensures a >= 0
  {
    if x < 0 then -x else x
  }

  lemma NaturalDivision(m: int, d: int)
    requires m >= 0 && d > 0
    ensures m == m / d * d + m % d && 0 <= m % d < d && 0 <= m / d <= m
  {
    var q := m / d;
    MulAtLeast(q, d);
    if q >= 0 {
      NonNegative(q, d - 1);
      assert q * (d - 1) == q * d - q;
    }
  }

  lemma Signs(q: int, y: int)
    ensures -q * y == -(q * y) && q * -y == -(q * y) && -q * -y == q * y
  {
  }

  lemma TruncDivides(x: int, y: int)
    requires y != 0
    ensures TruncatingDivision(x, y, TruncDiv(x, y), TruncRem(x, y))
    ensures Abs(TruncDiv(x, y)) <= Abs(x) && Abs(TruncRem(x, y)) <= Abs(x)
  {
    var m, d := Abs(x), Abs(y);
    NaturalDivision(m, d);
    var q, r := m / d, m % d;
    assert q * d >= 0 by {
      NonNegative(q, d);
    }
    assert TruncDiv(x, y) == if (x < 0) == (y < 0) then q else -q;
    hide TruncDiv;
    assert TruncDiv(x, y) * y == if x < 0 then -(q * d) else q * d by {
      Signs(q, y);
    }
  }

  lemma NonNegative(x: int, y: int)
    requires x >= 0 && y >= 0
    ensures x * y >= 0
  {
  }

  /** These conditions leave no other quotient and remainder. */
  lemma DivisionIsUnique(x: int, y: int, q: int, r: int, q': int, r': int)
    requires y != 0 && TruncatingDivision(x, y, q, r) && TruncatingDivision(x, y, q', r')
    ensures q == q' && r == r'
  {
    var k := if y < 0 then q' - q else q - q';
    assert k * Abs(y) == r' - r by {
      assert k * Abs(y) == (q - q') * y;
      assert (q - q') * y == q * y - q' * y;
    }
    MulAtLeast(k, Abs(y));
    hide TruncatingDivision;
  }

  /** DIV leaves the truncated quotient in LO and the remainder, with the dividend's sign, in HI;
      by zero, 0 and the dividend. */
  lemma DivIsTruncating(s: Arch, i: Word, s': Arch)
    requires Registers(i) && Funct(i) == DIV && Rd(i) == 0 && Exec(s, i, 0) == Go(s')
    ensures s'.r == s.r
    ensures var x, y := Signed(s.r[Rs(i)]), Signed(s.r[Rt(i)]);
            if y == 0 then s'.hi == s.r[Rs(i)] && s'.lo == 0
            else TruncatingDivision(x, y, Signed(s'.lo), Signed(s'.hi))
  {
    RegisterStep(s, i);
    hide Exec, Rs, Rt, Rd, Funct, TruncDiv, TruncRem, TruncatingDivision;
    var a, b := s.r[Rs(i)], s.r[Rt(i)];
    var x, y := Signed(a), Signed(b);
    if y != 0 {
      TruncDivides(x, y);
      TruncFits(x, y);
      SignedOfWrap(TruncDiv(x, y));
      SignedOfWrap(TruncRem(x, y));
    }
  }

  /** The only quotient that does not fit in a word is that of the smallest integer by -1. */
  lemma TruncFits(x: int, y: int)
    requires y != 0 && -0x8000_0000 <= x < 0x8000_0000
    requires !(x == -0x8000_0000 && y == -1)
    ensures -0x8000_0000 <= TruncDiv(x, y) < 0x8000_0000 && -0x8000_0000 <= TruncRem(x, y) < 0x8000_0000
  {
    TruncDivides(x, y);
    hide TruncRem, TruncDiv;
    var r := TruncRem(x, y);
    if TruncDiv(x, y) == 0x8000_0000 {
      MulAtLeast(1 + y, 0x8000_0000);
    }
  }

  /** DIVU leaves quotient and remainder; by zero, 0 and the dividend. */
  lemma DivuDivides(s: Arch, i: Word, s': Arch)
    requires Registers(i) && Funct(i) == DIVU && Rd(i) == 0 && Exec(s, i, 0) == Go(s')
    ensures s'.r == s.r
    ensures var a, b := s.r[Rs(i)], s.r[Rt(i)];
            if b == 0 then s'.hi == a && s'.lo == 0 else a == s'.lo * b + s'.hi && s'.hi < b
  {
    RegisterStep(s, i);
    hide Exec, Rs, Rt, Rd, Funct, Wrap;
    var a: int, b: int := s.r[Rs(i)], s.r[Rt(i)];
    if b != 0 {
      NaturalDivision(a, b);
      WrapOnce(a / b);
      WrapOnce(a % b);
    }
  }

  // ---------------------------------------------------------------------------
  // Sums and bits

  /** SUBU is undone by ADDU of the same operand, wrap-around or not. */
  lemma SubtractThenAdd(s: Arch, i: Word, j: Word, s1: Arch, s2: Arch)
    requires Registers(i) && Funct(i) == SUBU && Rd(i) != 0 && Rd(i) != Rt(i)
    requires Registers(j) && Funct(j) == ADDU && Rd(j) != 0 && Rs(j) == Rd(i) && Rt(j) == Rt(i)
    requires Exec(s, i, 0) == Go(s1) && Exec(s1, j, 0) == Go(s2)
    ensures s2.r[Rd(j)] == s.r[Rs(i)]
  {
    RegisterStep(s, i);
    RegisterStep(s1, j);
    hide Exec, Rs, Rt, Rd, Funct, Wrap;
    var a: int, b: int := s.r[Rs(i)], s.r[Rt(i)];
    WrapDrop(a - b, b);
    WrapOnce(a);
  }

  /** The three bitwise operators fit together as binary addition needs: x + y is the sum without
      carries plus twice the carries. */
  lemma {:induction false} SumOfBits(n: nat, x: nat, y: nat)
    requires x < Pow2(n) && y < Pow2(n)
    ensures Bits(BitXor, n, x, y) + 2 * Bits(BitAnd, n, x, y) == x + y
    ensures Bits(BitOr, n, x, y) == Bits(BitXor, n, x, y) + Bits(BitAnd, n, x, y)
  {
    if n > 0 {
      SumOfBits(n - 1, x / 2, y / 2);
    }
  }

  lemma WordBits(x: Word, y: Word)
    ensures Xor(x, y) + 2 * And(x, y) == x + y
    ensures Or(x, y) == Xor(x, y) + And(x, y)
  {
    Pow2Values();
    SumOfBits(32, x, y);
    hide Bits, Pow2;
  }

  /** The destination after one step. */
  function Destination(s: Arch, i: Word): Word {
    match Exec(s, i, 0)
    case Stop(_) => 0
    case Go(s') => s'.r[Rd(i)]
  }

  function LogicValue(f: nat, a: Word, b: Word): Word {
    if f == XOR then Xor(a, b)
    else if f == AND then And(a, b)
    else if f == OR then Or(a, b)
    else if f == NOR then Not(Or(a, b))
    else Wrap(a + b)
  }

  lemma LogicExecutes(s: Arch, at: Word, slot: bool, i: Word, a: Word, b: Word)
    requires AND <= Funct(i) <= NOR || Funct(i) == ADDU
    ensures ExecuteSpecial(s, at, slot, i, a, b) == Done(s, Rd(i), LogicValue(Funct(i), a, b))
  {
    hide Rd, Sa, Funct, Wrap, Xor, And, Or, Not, Shl, Shr, Sar, Neg, Signed, Divide, DivideUnsigned, AddTrapping, Trap;
  }

  lemma LogicStep(s: Arch, i: Word)
    requires Registers(i) && Rd(i) != 0 && (AND <= Funct(i) <= NOR || Funct(i) == ADDU)
    ensures Destination(s, i) == LogicValue(Funct(i), s.r[Rs(i)], s.r[Rt(i)])
  {
    RegisterStep(s, i);
    hide Exec, ExecuteSpecial, LogicValue, Rs, Rt, Rd, Funct, Opcode;
    LogicExecutes(Advance(s), s.pc, s.delay, i, s.r[Rs(i)], s.r[Rt(i)]);
  }

  /** XOR, AND, OR, NOR and ADDU of the same operands: ADDU is XOR plus twice AND, OR is XOR plus
      AND, and NOR is what OR lacks to all ones. */
  lemma LogicAddsUp(s: Arch, x: Word, n: Word, o: Word, r: Word, a: Word)
    requires Registers(x) && Registers(n) && Registers(o) && Registers(r) && Registers(a)
    requires Funct(x) == XOR && Funct(n) == AND && Funct(o) == OR && Funct(r) == NOR && Funct(a) == ADDU
    requires Rs(x) == Rs(n) == Rs(o) == Rs(r) == Rs(a) && Rt(x) == Rt(n) == Rt(o) == Rt(r) == Rt(a)
    requires Rd(x) != 0 && Rd(n) != 0 && Rd(o) != 0 && Rd(r) != 0 && Rd(a) != 0
    ensures Destination(s, a) == Wrap(Destination(s, x) + 2 * Destination(s, n))
    ensures Destination(s, o) == Destination(s, x) + Destination(s, n)
    ensures Destination(s, r) + Destination(s, o) == 0xFFFF_FFFF
  {
    hide Destination, Registers, Rs, Rt, Rd, Funct, Wrap, Xor, And, Or;
    LogicStep(s, x);
    LogicStep(s, n);
    LogicStep(s, o);
    LogicStep(s, r);
    LogicStep(s, a);
    WordBits(s.r[Rs(x)], s.r[Rt(x)]);
  }

  // ---------------------------------------------------------------------------
  // Constants and shifts

  lemma ImmediateStep(s: Arch, i: Word)
    requires Opcode(i) == LUI || Opcode(i) == ORI
    ensures Exec(s, i, 0).Go?
    ensures var v := if Opcode(i) == LUI then UImm(i) * 0x1_0000 else Or(s.r[Rs(i)], UImm(i));
            Exec(s, i, 0).s.r == if Rt(i) == 0 then s.r else s.r[Rt(i) := v]
  {
    hide Opcode, Rs, Rt, UImm, Or;
    assert Opcode(i) == ORI ==> OperandS(s.r, i) == s.r[Rs(i)];
    hide OperandS, OperandT;
  }

  /** LUI and ORI load any constant, half by half. */
  lemma LoadsConstant(s: Arch, i: Word, j: Word)
    requires Opcode(i) == LUI && Opcode(j) == ORI && Rt(i) == Rt(j) == Rs(j) != 0
    ensures Exec(s, i, 0).Go? && Exec(Exec(s, i, 0).s, j, 0).Go?
    ensures Exec(Exec(s, i, 0).s, j, 0).s.r == s.r[Rt(i) := UImm(i) * 0x1_0000 + UImm(j)]
  {
    Halves(i);
    Halves(j);
    hide Exec, Opcode, Rs, Rt, UImm, Or;
    OrHalves(UImm(i), UImm(j));
    ImmediateStep(s, i);
    ImmediateStep(Exec(s, i, 0).s, j);
  }

  lemma Halves(i: Word)
    ensures UImm(i) < 0x1_0000
  {
  }

  lemma OrHalves(hi: Word, lo: Word)
    requires hi < 0x1_0000 && lo < 0x1_0000
    ensures Or(hi * 0x1_0000, lo) == hi * 0x1_0000 + lo
  {
    Pow2Values();
    OrDisjoint(32, 16, hi, lo);
    hide Bits, Pow2;
  }

  /** Shifting left and then arithmetically right by 24 sign-extends the low byte, as LB does to the
      byte it loads; by 16, the low halfword, as LH does. */
  lemma ShiftsSignExtend(s: Arch, i: Word, j: Word, s1: Arch, s2: Arch)
    requires Registers(i) && Funct(i) == SLL && Rd(i) != 0
    requires Registers(j) && Funct(j) == SRA && Rd(j) != 0 && Rt(j) == Rd(i) && Sa(j) == Sa(i)
    requires Exec(s, i, 0) == Go(s1) && Exec(s1, j, 0) == Go(s2)
    ensures Sa(i) == 24 ==> s2.r[Rd(j)] == SignExtend8(s.r[Rt(i)] % 0x100)
    ensures Sa(i) == 16 ==> s2.r[Rd(j)] == SignExtend16(s.r[Rt(i)] % 0x1_0000)
  {
    RegisterStep(s, i);
    RegisterStep(s1, j);
    hide Exec, Rs, Rt, Rd, Funct, Sa, Shl, Sar, SignExtend8, SignExtend16;
    Pow2Values();
    var x := s.r[Rt(i)];
    if Sa(i) == 24 {
      ByteShifts(x);
    } else if Sa(i) == 16 {
      HalfShifts(x);
    }
  }

  lemma ByteShifts(x: Word)
    ensures Sar(Shl(x, 24), 24) == SignExtend8(x % 0x100)
  {
    hide Pow2, Shl;
    Pow2Values();
    ShlIsProduct(x, 24);
    var q, r := x / 0x100, x % 0x100;
    DivModUnique(x * 0x100_0000, 0x1_0000_0000, q, r * 0x100_0000);
    if r < 0x80 {
      DivModUnique(r * 0x100_0000, 0x100_0000, r, 0);
    } else {
      DivModUnique((r - 0x100) * 0x100_0000, 0x100_0000, r - 0x100, 0);
    }
  }

  lemma HalfShifts(x: Word)
    ensures Sar(Shl(x, 16), 16) == SignExtend16(x % 0x1_0000)
  {
    hide Pow2, Shl;
    Pow2Values();
    ShlIsProduct(x, 16);
    var q, r := x / 0x1_0000, x % 0x1_0000;
    DivModUnique(x * 0x1_0000, 0x1_0000_0000, q, r * 0x1_0000);
    if r < 0x8000 {
      DivModUnique(r * 0x1_0000, 0x1_0000, r, 0);
    } else {
      DivModUnique((r - 0x1_0000) * 0x1_0000, 0x1_0000, r - 0x1_0000, 0);
    }
  }

  // ---------------------------------------------------------------------------
  // Stores and loads

  lemma LowHalf(v: Word)
    ensures ByteOf(v, 2) * 256 + ByteOf(v, 3) == v % 0x1_0000
  {
    DivModUnique(v, 0x1_0000, v / 256 / 256, v / 256 % 256 * 256 + v % 256);
  }

  /** A load of the size just stored reads the low bytes of the word stored. */
  lemma UnitRoundTrip(m: Mem, a: Word, v: Word, c: nat)
    requires c == 1 || c == 2 || c == 4
    requires Store(m, a, v, c).Stored? && Load(Store(m, a, v, c).mem, a, c, false).Value?
    ensures Load(Store(m, a, v, c).mem, a, c, false).w ==
            if c == 1 then v % 0x100 else if c == 2 then v % 0x1_0000 else v
  {
    if c == 2 {
      LowHalf(v);
    } else if c == 4 {
      LoadAfterStore(m, a, v, a);
      hide LoadWord, StoreWord;
    }
    hide ByteOf;
  }

  /** The load that goes with a store: unsigned or signed, of the same size. */
  predicate Matching(store: nat, load: nat) {
    (store == SB && (load == LB || load == LBU)) || (store == SH && (load == LH || load == LHU)) ||
    (store == SW && load == LW)
  }

  function Reread(load: nat, t: Word): Word {
    if load == LB then SignExtend8(t % 0x100)
    else if load == LBU then t % 0x100
    else if load == LH then SignExtend16(t % 0x1_0000)
    else if load == LHU then t % 0x1_0000
    else t
  }

  lemma StoreStep(s: Arch, i: Word, s1: Arch)
    requires SB <= Opcode(i) <= SH || Opcode(i) == SW
    requires Exec(s, i, 0) == Go(s1)
    ensures s1.r == s.r
    ensures var c := if Opcode(i) == SB then 1 else if Opcode(i) == SH then 2 else 4;
            Store(s.mem, DataAddress(s, i), s.r[Rt(i)], c) == Stored(s1.mem)
  {
    hide Store, Rs, Rt, SImm, Wrap;
  }

  lemma LoadStep(s: Arch, i: Word, s1: Arch)
    requires LB <= Opcode(i) <= LH || LW <= Opcode(i) <= LHU
    requires Exec(s, i, 0) == Go(s1)
    ensures var op := Opcode(i);
            var c := if op == LB || op == LBU then 1 else if op == LH || op == LHU then 2 else 4;
            var l := Load(s.mem, DataAddress(s, i), c, false);
            l.Value? &&
            s1.r == if Rt(i) == 0 then s.r else s.r[Rt(i) := LoadResult(op, l.w, DataAddress(s, i), s.r[Rt(i)])]
  {
    hide Load, Rs, SImm, Wrap, SignExtend8, SignExtend16, MergeLeft, MergeRight;
  }

  /** Storing a byte, halfword or word and loading it again, signed or not, gives its low bytes, in
      sign-extended form for the signed loads. */
  lemma StoreThenLoad(s: Arch, i: Word, j: Word, s1: Arch, s2: Arch)
    requires Matching(Opcode(i), Opcode(j)) && Rs(i) == Rs(j) && SImm(i) == SImm(j) && Rt(j) != 0
    requires Exec(s, i, 0) == Go(s1) && Exec(s1, j, 0) == Go(s2)
    ensures s2.r == s.r[Rt(j) := Reread(Opcode(j), s.r[Rt(i)])]
  {
    StoreStep(s, i, s1);
    LoadStep(s1, j, s2);
    SameDataAddress(s, s1, i, j);
    var c := if Opcode(i) == SB then 1 else if Opcode(i) == SH then 2 else 4;
    RereadIs(Opcode(j), s.r[Rt(i)], DataAddress(s1, j), s1.r[Rt(j)]);
    hide Exec, Load, Store, Rs, Rt, SImm, DataAddress, LoadResult, Reread, Opcode;
    UnitRoundTrip(s.mem, DataAddress(s, i), s.r[Rt(i)], c);
  }

  lemma RereadIs(load: nat, t: Word, address: Word, b: Word)
    ensures load == LB || load == LBU ==> LoadResult(load, t % 0x100, address, b) == Reread(load, t)
    ensures load == LH || load == LHU ==> LoadResult(load, t % 0x1_0000, address, b) == Reread(load, t)
    ensures load == LW ==> LoadResult(load, t, address, b) == Reread(load, t)
  {
    hide SignExtend8, SignExtend16;
  }

  lemma SameDataAddress(s: Arch, s1: Arch, i: Word, j: Word)
    requires Matching(Opcode(i), Opcode(j)) && Rs(i) == Rs(j) && SImm(i) == SImm(j) && s.r == s1.r
    ensures DataAddress(s, i) == DataAddress(s1, j)
  {
    hide Rs, SImm, Wrap;
  }
}
