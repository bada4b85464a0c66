/** The unaligned load and store pairs. */
module Unaligned {
  import opened Words
  import opened Memory
  import opened Cpu

  // ---------------------------------------------------------------------------
  // Shift-and-mask merges, byte by byte

  lemma ShiftMasks(k: nat)
    requires k < 4
    ensures Pow2(8 * k) == [1, 0x100, 0x1_0000, 0x100_0000][k]
    ensures Shl(0xFFFF_FFFF, 8 * k) == 0x1_0000_0000 - Pow2(8 * k)
    ensures Shr(0xFFFF_FFFF, 8 * k) == Pow2(32 - 8 * k) - 1
  {
    hide Pow2, Shl, Shr;
    Pow2Values();
    ShlIsProduct(0xFFFF_FFFF, 8 * k);
    ShrIsQuotient(0xFFFF_FFFF, 8 * k);
    if k == 0 {
    } else if k == 1 {
      DivModUnique(0xFFFF_FFFF * 0x100, 0x1_0000_0000, 0xFF, 0xFFFF_FF00);
      DivModUnique(0xFFFF_FFFF, 0x100, 0xFF_FFFF, 0xFF);
    } else if k == 2 {
      DivModUnique(0xFFFF_FFFF * 0x1_0000, 0x1_0000_0000, 0xFFFF, 0xFFFF_0000);
      DivModUnique(0xFFFF_FFFF, 0x1_0000, 0xFFFF, 0xFFFF);
    } else {
      DivModUnique(0xFFFF_FFFF * 0x100_0000, 0x1_0000_0000, 0xFF_FFFF, 0xFF00_0000);
      DivModUnique(0xFFFF_FFFF, 0x100_0000, 0xFF, 0xFF_FFFF);
    }
  }

  lemma MergeLeftSum(w: Word, t: Word, k: nat)
    requires k < 4
    ensures MergeLeft(w, t, 8 * k) == Shl(w, 8 * k) + t % Pow2(8 * k)
  {
    hide Bits, Pow2, Shl;
    Pow2Values();
    ShiftMasks(k);
    ShlIsProduct(w, 8 * k);
    var p, q := Pow2(8 * k), Pow2(32 - 8 * k);
    AndLowMask(32, 8 * k, t);
    DivModUnique(w * p, 0x1_0000_0000, w / q, w % q * p);
    OrDisjoint(32, 8 * k, w % q, t % p);
  }

  lemma HighPart(t: Word, lo: Word, n: nat)
    requires n == 8 || n == 16 || n == 24 || n == 32
    requires lo < Pow2(n) <= 0x1_0000_0000
    ensures Or(lo, And(0x1_0000_0000 - Pow2(n), t)) == t - t % Pow2(n) + lo
  {
    hide Bits, Pow2;
    Pow2Values();
    AndHighMask(32, n, t);
    var h := t / Pow2(n);
    assert t - t % Pow2(n) == h * Pow2(n);
    OrCommutes(32, lo, h * Pow2(n));
    OrDisjoint(32, n, h, lo);
  }

  lemma MergeRightSum(w: Word, t: Word, k: nat)
    requires k < 4
    ensures MergeRight(w, t, 8 * k) == t - t % Pow2(32 - 8 * k) + Shr(w, 8 * k)
  {
    hide Bits, Pow2, Shr;
    Pow2Values();
    ShiftMasks(k);
    ShrIsQuotient(w, 8 * k);
    assert Shr(w, 8 * k) < Pow2(32 - 8 * k);
    HighPart(t, Shr(w, 8 * k), 32 - 8 * k);
  }

  /** A left merge moves the word's bytes up by k, and keeps the last k of the register. */
  lemma MergeLeftBytes(w: Word, t: Word, k: nat, i: nat)
    requires k < 4 && i < 4
    ensures ByteOf(MergeLeft(w, t, 8 * k), i) == if i + k < 4 then ByteOf(w, i + k) else ByteOf(t, i)
  {
    hide Pow2, MergeLeft, ByteOf, Join;
    Pow2Values();
    MergeLeftSum(w, t, k);
    JoinBytes(w);
    JoinBytes(t);
    var w0, w1, w2, w3 := ByteOf(w, 0), ByteOf(w, 1), ByteOf(w, 2), ByteOf(w, 3);
    var t1, t2, t3 := ByteOf(t, 1), ByteOf(t, 2), ByteOf(t, 3);
    var r := [Join(w0, w1, w2, w3), Join(w1, w2, w3, t3), Join(w2, w3, t2, t3), Join(w3, t1, t2, t3)][k];
    LeftJoin(w0, w1, w2, w3, ByteOf(t, 0), t1, t2, t3, k);
    if k == 0 {
      BytesJoin(w0, w1, w2, w3);
    } else if k == 1 {
      BytesJoin(w1, w2, w3, t3);
    } else if k == 2 {
      BytesJoin(w2, w3, t2, t3);
    } else {
      BytesJoin(w3, t1, t2, t3);
    }
    assert i == 0 || i == 1 || i == 2 || i == 3;
  }

  lemma JoinsAre()
    ensures forall b0: Byte, b1: Byte, b2: Byte, b3: Byte ::
              Join(b0, b1, b2, b3) == b0 * 0x100_0000 + b1 * 0x1_0000 + b2 * 0x100 + b3
  {
    forall b0: Byte, b1: Byte, b2: Byte, b3: Byte
      ensures Join(b0, b1, b2, b3) == b0 * 0x100_0000 + b1 * 0x1_0000 + b2 * 0x100 + b3
    {
      JoinIs(b0, b1, b2, b3);
    }
  }

  lemma ShlJoin(w0: Byte, w1: Byte, w2: Byte, w3: Byte, k: nat)
    requires k < 4
    ensures Shl(Join(w0, w1, w2, w3), 8 * k) ==
            [Join(w0, w1, w2, w3), Join(w1, w2, w3, 0), Join(w2, w3, 0, 0), Join(w3, 0, 0, 0)][k]
  {
    hide Pow2, Shl, Join;
    JoinsAre();
    Pow2Values();
    var w := Join(w0, w1, w2, w3);
    if k == 0 {
      ShlIs(w, 0, 1, 0, w);
    } else if k == 1 {
      ShlIs(w, 8, 0x100, w0, Join(w1, w2, w3, 0));
    } else if k == 2 {
      ShlIs(w, 16, 0x1_0000, w0 * 256 + w1, Join(w2, w3, 0, 0));
    } else {
      ShlIs(w, 24, 0x100_0000, (w0 * 256 + w1) * 256 + w2, Join(w3, 0, 0, 0));
    }
  }

  lemma ShlIs(w: int, n: nat, p: int, q: int, r: Word)
    requires 0 <= w < 0x1_0000_0000 && Pow2(n) == p && w * p == q * 0x1_0000_0000 + r
    ensures Shl(w, n) == r
  {
    ShlIsProduct(w, n);
    hide Shl;
    DivModUnique(w * p, 0x1_0000_0000, q, r);
  }

  lemma LowJoin(t0: Byte, t1: Byte, t2: Byte, t3: Byte, k: nat)
    requires k < 4
    ensures Join(t0, t1, t2, t3) % Pow2(8 * k) == [0, t3, Join(0, 0, t2, t3), Join(0, t1, t2, t3)][k]
  {
    hide Pow2, Join;
    JoinsAre();
    Pow2Values();
    var t := Join(t0, t1, t2, t3);
    if k == 0 {
    } else if k == 1 {
      DivModUnique(t, 0x100, (t0 * 256 + t1) * 256 + t2, t3);
    } else if k == 2 {
      DivModUnique(t, 0x1_0000, t0 * 256 + t1, t2 * 256 + t3);
    } else {
      DivModUnique(t, 0x100_0000, t0, (t1 * 256 + t2) * 256 + t3);
    }
  }

  lemma LeftJoin(w0: Byte, w1: Byte, w2: Byte, w3: Byte, t0: Byte, t1: Byte, t2: Byte, t3: Byte, k: nat)
    requires k < 4
    ensures Shl(Join(w0, w1, w2, w3), 8 * k) + Join(t0, t1, t2, t3) % Pow2(8 * k) ==
            [Join(w0, w1, w2, w3), Join(w1, w2, w3, t3), Join(w2, w3, t2, t3), Join(w3, t1, t2, t3)][k]
  {
    hide Shl, Pow2, Join;
    JoinsAre();
    ShlJoin(w0, w1, w2, w3, k);
    LowJoin(t0, t1, t2, t3, k);
  }

  /** A right merge moves the word's bytes down by k, and keeps the first k of the register. */
  lemma MergeRightBytes(w: Word, t: Word, k: nat, i: nat)
    requires k < 4 && i < 4
    ensures ByteOf(MergeRight(w, t, 8 * k), i) == if i < k then ByteOf(t, i) else ByteOf(w, i - k)
  {
    hide Pow2, MergeRight, ByteOf, Join;
    Pow2Values();
    MergeRightSum(w, t, k);
    JoinBytes(w);
    JoinBytes(t);
    var w0, w1, w2, w3 := ByteOf(w, 0), ByteOf(w, 1), ByteOf(w, 2), ByteOf(w, 3);
    var t0, t1, t2, t3 := ByteOf(t, 0), ByteOf(t, 1), ByteOf(t, 2), ByteOf(t, 3);
    RightJoin(w0, w1, w2, w3, t0, t1, t2, t3, k);
    if k == 0 {
      BytesJoin(w0, w1, w2, w3);
    } else if k == 1 {
      BytesJoin(t0, w0, w1, w2);
    } else if k == 2 {
      BytesJoin(t0, t1, w0, w1);
    } else {
      BytesJoin(t0, t1, t2, w0);
    }
    assert i == 0 || i == 1 || i == 2 || i == 3;
  }

  lemma ShrJoin(w0: Byte, w1: Byte, w2: Byte, w3: Byte, k: nat)
    requires k < 4
    ensures Shr(Join(w0, w1, w2, w3), 8 * k) ==
            [Join(w0, w1, w2, w3), Join(0, w0, w1, w2), Join(0, 0, w0, w1), Join(0, 0, 0, w0)][k]
  {
    hide Pow2, Shr, Join;
    JoinsAre();
    Pow2Values();
    var w := Join(w0, w1, w2, w3);
    ShrIsQuotient(w, 8 * k);
    if k == 0 {
      DivModUnique(w, 1, w, 0);
    } else if k == 1 {
      DivModUnique(w, 0x100, Join(0, w0, w1, w2), w3);
    } else if k == 2 {
      DivModUnique(w, 0x1_0000, Join(0, 0, w0, w1), Join(0, 0, w2, w3));
    } else {
      DivModUnique(w, 0x100_0000, w0, Join(0, w1, w2, w3));
    }
  }

  lemma HighJoin(t0: Byte, t1: Byte, t2: Byte, t3: Byte, k: nat)
    requires k < 4
    ensures Join(t0, t1, t2, t3) - Join(t0, t1, t2, t3) % Pow2(32 - 8 * k) ==
            [0, Join(t0, 0, 0, 0), Join(t0, t1, 0, 0), Join(t0, t1, t2, 0)][k]
  {
    hide Pow2, Join;
    JoinsAre();
    Pow2Values();
    var t := Join(t0, t1, t2, t3);
    if k == 0 {
      DivModUnique(t, 0x1_0000_0000, 0, t);
    } else if k == 1 {
      DivModUnique(t, 0x100_0000, t0, Join(0, t1, t2, t3));
    } else if k == 2 {
      DivModUnique(t, 0x1_0000, Join(0, 0, t0, t1), Join(0, 0, t2, t3));
    } else {
      DivModUnique(t, 0x100, Join(0, t0, t1, t2), t3);
    }
  }

  lemma RightJoin(w0: Byte, w1: Byte, w2: Byte, w3: Byte, t0: Byte, t1: Byte, t2: Byte, t3: Byte, k: nat)
    requires k < 4
    ensures Join(t0, t1, t2, t3) - Join(t0, t1, t2, t3) % Pow2(32 - 8 * k) + Shr(Join(w0, w1, w2, w3), 8 * k) ==
            [Join(w0, w1, w2, w3), Join(t0, w0, w1, w2), Join(t0, t1, w0, w1), Join(t0, t1, t2, w0)][k]
  {
    hide Pow2, Shr, Join;
    JoinsAre();
    ShrJoin(w0, w1, w2, w3, k);
    HighJoin(t0, t1, t2, t3, k);
  }

  // ---------------------------------------------------------------------------
  // The four instructions on memory

  /** What LWL leaves in a register that held t. */
  function LoadLeft(m: Mem, a: Word, t: Word): Word {
    MergeLeft(LoadWord(m, WordBase(a)), t, LeftShift(a))
  }

  /** What LWR leaves in a register that held t. */
  function LoadRight(m: Mem, a: Word, t: Word): Word {
    MergeRight(LoadWord(m, WordBase(a)), t, 24 - LeftShift(a))
  }

  function StoreLeft(m: Mem, a: Word, t: Word): Mem {
    StoreWord(m, WordBase(a), MergeRight(t, LoadWord(m, WordBase(a)), LeftShift(a)))
  }

  function StoreRight(m: Mem, a: Word, t: Word): Mem {
    StoreWord(m, WordBase(a), MergeLeft(t, LoadWord(m, WordBase(a)), 24 - LeftShift(a)))
  }

  lemma ByteOfLoad(m: Mem, b: Word, i: nat)
    requires b % 4 == 0 && i < 4
    ensures b + i < 0x1_0000_0000 && ByteOf(LoadWord(m, b), i) == At(m, b + i)
  {
    hide ByteOf, Join;
    WordRange(b);
    BytesJoin(At(m, b), At(m, b + 1), At(m, b + 2), At(m, b + 3));
    assert i == 0 || i == 1 || i == 2 || i == 3;
  }

  lemma WordOffset(a: Word)
    ensures a == WordBase(a) + a % 4 && LeftShift(a) == 8 * (a % 4) && 24 - LeftShift(a) == 8 * (3 - a % 4)
  {
  }

  /** SWL at byte k of the word at b writes the register's first bytes from there up to the end of the
      word, and nothing else. */
  lemma StoreLeftBytes(m: Mem, b: Word, k: nat, t: Word, p: Word)
    requires b % 4 == 0 && k < 4
    ensures At(StoreWord(m, b, MergeRight(t, LoadWord(m, b), 8 * k)), p) ==
            if b + k <= p < b + 4 then ByteOf(t, p - b - k) else At(m, p)
  {
    hide ByteOf, LoadWord, MergeRight, StoreWord;
    StoreWordBytes(m, b, MergeRight(t, LoadWord(m, b), 8 * k), p);
    if b <= p < b + 4 {
      MergeRightBytes(t, LoadWord(m, b), k, p - b);
      ByteOfLoad(m, b, p - b);
    }
  }

  /** SWR at byte k of the word at b writes the register's last bytes from the start of the word up to
      there, and nothing else. */
  lemma StoreRightBytes(m: Mem, b: Word, k: nat, t: Word, p: Word)
    requires b % 4 == 0 && k < 4
    ensures At(StoreWord(m, b, MergeLeft(t, LoadWord(m, b), 8 * (3 - k))), p) ==
            if b <= p <= b + k then ByteOf(t, 3 - (b + k - p)) else At(m, p)
  {
    hide ByteOf, LoadWord, MergeLeft, StoreWord;
    StoreWordBytes(m, b, MergeLeft(t, LoadWord(m, b), 8 * (3 - k)), p);
    if b <= p < b + 4 {
      MergeLeftBytes(t, LoadWord(m, b), 3 - k, p - b);
      ByteOfLoad(m, b, p - b);
    }
  }

  // ---------------------------------------------------------------------------
  // The pairs

  /** The big-endian word of the four bytes from a on. */
  function UnalignedWord(m: Mem, a: Word): Word
    requires a + 3 < 0x1_0000_0000
  {
    Join(At(m, a), At(m, a + 1), At(m, a + 2), At(m, a + 3))
  }

  lemma ThreeOn(a: Word)
    requires a + 3 < 0x1_0000_0000
    ensures a % 4 == 0 ==> WordBase(a + 3) == a && (a + 3) % 4 == 3
    ensures a % 4 != 0 ==> WordBase(a + 3) == WordBase(a) + 4 && (a + 3) % 4 == a % 4 - 1
  {
    var q, r := a / 4, a % 4;
    if r == 0 {
      DivModUnique(a + 3, 4, q, 3);
    } else {
      DivModUnique(a + 3, 4, q + 1, r - 1);
    }
  }

  lemma LoadPairByte(m: Mem, a: Word, t: Word, i: nat)
    requires a + 3 < 0x1_0000_0000 && i < 4
    ensures ByteOf(LoadRight(m, a + 3, LoadLeft(m, a, t)), i) == At(m, a + i)
  {
    hide ByteOf, MergeLeft, MergeRight, LoadWord, WordBase, LeftShift;
    ThreeOn(a);
    WordOffset(a);
    WordOffset(a + 3);
    var b, k, c, l := WordBase(a), a % 4, WordBase(a + 3), (a + 3) % 4;
    MergeLeftBytes(LoadWord(m, b), t, k, i);
    MergeRightBytes(LoadWord(m, c), LoadLeft(m, a, t), 3 - l, i);
    if i < 3 - l {
      ByteOfLoad(m, b, k + i);
    } else {
      ByteOfLoad(m, c, i - (3 - l));
    }
  }

  /** LWL a and LWR a + 3 load the four bytes from a on, whatever the register held. */
  lemma LoadPair(m: Mem, a: Word, t: Word)
    requires a + 3 < 0x1_0000_0000
    ensures LoadRight(m, a + 3, LoadLeft(m, a, t)) == UnalignedWord(m, a)
  {
    hide ByteOf, LoadLeft, LoadRight, Join;
    var w := LoadRight(m, a + 3, LoadLeft(m, a, t));
    LoadPairByte(m, a, t, 0);
    LoadPairByte(m, a, t, 1);
    LoadPairByte(m, a, t, 2);
    LoadPairByte(m, a, t, 3);
    JoinBytes(w);
  }

  /** SWL a and SWR a + 3 write the four bytes from a on, and no others. */
  lemma StorePair(m: Mem, a: Word, t: Word, p: Word)
    requires a + 3 < 0x1_0000_0000
    ensures At(StoreRight(StoreLeft(m, a, t), a + 3, t), p) == if a <= p < a + 4 then ByteOf(t, p - a) else At(m, p)
  {
    hide ByteOf, MergeLeft, MergeRight, LoadWord, StoreWord, WordBase, LeftShift, At;
    ThreeOn(a);
    WordOffset(a);
    WordOffset(a + 3);
    StoreLeftBytes(m, WordBase(a), a % 4, t, p);
    StoreRightBytes(StoreLeft(m, a, t), WordBase(a + 3), (a + 3) % 4, t, p);
  }

  /** Storing and then loading an unaligned word is the identity. */
  lemma StoreLoadPair(m: Mem, a: Word, v: Word, t: Word)
    requires a + 3 < 0x1_0000_0000
    ensures var m' := StoreRight(StoreLeft(m, a, v), a + 3, v);
            LoadRight(m', a + 3, LoadLeft(m', a, t)) == v
  {
    hide ByteOf, StoreLeft, StoreRight, LoadLeft, LoadRight;
    var m' := StoreRight(StoreLeft(m, a, v), a + 3, v);
    LoadPair(m', a, t);
    StorePair(m, a, v, a);
    StorePair(m, a, v, a + 1);
    StorePair(m, a, v, a + 2);
    StorePair(m, a, v, a + 3);
    JoinBytes(v);
  }

  // ---------------------------------------------------------------------------
  // The pairs as instructions

  lemma UsesBoth(i: Word)
    requires Opcode(i) == LWL || Opcode(i) == LWR || Opcode(i) == SWL || Opcode(i) == SWR
    ensures UsesRs(i) && UsesRt(i)
  {
  }

  /** A word access that goes through is outside the device space. */
  lemma DataRange(m: Mem, a: Word)
    requires Load(m, WordBase(a), 4, false).Value?
    ensures a + 3 < 0x1_0000_0000
  {
    WordOffset(a);
    var b := WordBase(a);
    DivModUnique(b, 0x100_0000, b / 0x100_0000, b % 0x100_0000);
    if b >= 0xFF00_0000 {
      DivModUnique(b, 0x100_0000, 0xFF, b - 0xFF00_0000);
    }
  }

  /** What LWL and LWR write back. */
  lemma PairLoadResult(s: Arch, i: Word, address: Word, b: Word)
    requires Opcode(i) == LWL || Opcode(i) == LWR
    ensures var v := if Opcode(i) == LWL then LoadLeft(s.mem, address, b) else LoadRight(s.mem, address, b);
            match Load(s.mem, WordBase(address), 4, false)
            case Fault(why) => ExecuteLoad(s, i, address, b) == Halted(why)
            case Value(_) => ExecuteLoad(s, i, address, b) == Done(s, Rt(i), v)
  {
    hide Opcode, Rt, MergeLeft, MergeRight, LeftShift, WordBase, LoadWord, LoadHalf, SignExtend8, SignExtend16;
  }

  lemma LeftLoadStep(s: Arch, i: Word, s1: Arch)
    requires Opcode(i) == LWL && Exec(s, i, 0) == Go(s1) && Rt(i) != 0
    ensures s1.r == s.r[Rt(i) := LoadLeft(s.mem, DataAddress(s, i), s.r[Rt(i)])] && s1.mem == s.mem
    ensures Load(s.mem, WordBase(DataAddress(s, i)), 4, false).Value?
  {
    UsesBoth(i);
    hide Exec, ExecuteLoad, Load, LoadLeft, LoadRight, UsesRs, UsesRt, Opcode, Rt, DataAddress, WordBase;
    MemoryExec(s, i, 0);
    PairLoadResult(Advance(s), i, DataAddress(s, i), s.r[Rt(i)]);
  }

  lemma RightLoadStep(s: Arch, i: Word, s1: Arch)
    requires Opcode(i) == LWR && Exec(s, i, 0) == Go(s1) && Rt(i) != 0
    ensures s1.r == s.r[Rt(i) := LoadRight(s.mem, DataAddress(s, i), s.r[Rt(i)])] && s1.mem == s.mem
  {
    UsesBoth(i);
    hide Exec, ExecuteLoad, Load, LoadLeft, LoadRight, UsesRs, UsesRt, Opcode, Rt, DataAddress, WordBase;
    MemoryExec(s, i, 0);
    PairLoadResult(Advance(s), i, DataAddress(s, i), s.r[Rt(i)]);
  }

  /** LWL rt, d(rs) and LWR rt, d+3(rs), with rt other than rs, load the unaligned word. */
  lemma LoadPairStep(s: Arch, i: Word, j: Word, s1: Arch, s2: Arch)
    requires Opcode(i) == LWL && Opcode(j) == LWR && SImm(j) == SImm(i) + 3
    requires Rs(i) == Rs(j) && Rt(i) == Rt(j) && Rt(i) != 0 && Rt(i) != Rs(i)
    requires Exec(s, i, 0) == Go(s1) && Exec(s1, j, 0) == Go(s2)
    ensures var a := DataAddress(s, i);
            a + 3 < 0x1_0000_0000 && s2.r == s.r[Rt(i) := UnalignedWord(s.mem, a)] && s2.mem == s.mem
  {
    hide Exec, DataAddress, Rs, Rt, SImm, LoadLeft, LoadRight, UnalignedWord, UsesRs, UsesRt, Opcode, Load;
    var a := DataAddress(s, i);
    LeftLoadStep(s, i, s1);
    DataRange(s.mem, a);
    UsesBoth(i);
    UsesBoth(j);
    NextAddress(s, s1, i, j);
    RightLoadStep(s1, j, s2);
    LoadPair(s.mem, a, s.r[Rt(i)]);
  }

  lemma NextAddress(s: Arch, s1: Arch, i: Word, j: Word)
    requires UsesRs(i) && UsesRs(j) && Rs(i) == Rs(j) && s1.r[Rs(i)] == s.r[Rs(i)]
    requires SImm(j) == SImm(i) + 3 && DataAddress(s, i) + 3 < 0x1_0000_0000
    ensures DataAddress(s1, j) == DataAddress(s, i) + 3
  {
    hide UsesRs, Rs, SImm;
    var x := s.r[Rs(i)] + SImm(i);
    DivModUnique(x + 3, 0x1_0000_0000, x / 0x1_0000_0000, x % 0x1_0000_0000 + 3);
  }

  lemma LeftStoreStep(s: Arch, i: Word, s1: Arch)
    requires Opcode(i) == SWL && Exec(s, i, 0) == Go(s1)
    ensures s1.r == s.r && s1.mem == StoreLeft(s.mem, DataAddress(s, i), s.r[Rt(i)])
    ensures Load(s.mem, WordBase(DataAddress(s, i)), 4, false).Value?
  {
    UsesBoth(i);
    MemoryExec(s, i, 0);
    hide Exec, UsesRs, UsesRt, Opcode, Rt, DataAddress, MergeLeft, MergeRight, LeftShift, WordBase, Mapped;
    hide LoadWord, LoadHalf, StoreWord, SignExtend8, SignExtend16;
  }

  lemma RightStoreStep(s: Arch, i: Word, s1: Arch)
    requires Opcode(i) == SWR && Exec(s, i, 0) == Go(s1)
    ensures s1.r == s.r && s1.mem == StoreRight(s.mem, DataAddress(s, i), s.r[Rt(i)])
  {
    UsesBoth(i);
    MemoryExec(s, i, 0);
    hide Exec, UsesRs, UsesRt, Opcode, Rt, DataAddress, MergeLeft, MergeRight, LeftShift, WordBase;
    hide LoadWord, LoadHalf, StoreWord, SignExtend8, SignExtend16;
  }

  /** SWL rt, d(rs) and SWR rt, d+3(rs) store the register unaligned, and change nothing else. */
  lemma StorePairStep(s: Arch, i: Word, j: Word, s1: Arch, s2: Arch, p: Word)
    requires Opcode(i) == SWL && Opcode(j) == SWR && SImm(j) == SImm(i) + 3
    requires Rs(i) == Rs(j) && Rt(i) == Rt(j)
    requires Exec(s, i, 0) == Go(s1) && Exec(s1, j, 0) == Go(s2)
    ensures DataAddress(s, i) + 3 < 0x1_0000_0000 && s2.r == s.r
    ensures var a := DataAddress(s, i);
            At(s2.mem, p) == if a <= p < a + 4 then ByteOf(s.r[Rt(i)], p - a) else At(s.mem, p)
  {
    hide Exec, DataAddress, Rs, Rt, SImm, StoreLeft, StoreRight, ByteOf, UsesRs, UsesRt, Opcode, Load, At;
    var a := DataAddress(s, i);
    LeftStoreStep(s, i, s1);
    DataRange(s.mem, a);
    UsesBoth(i);
    UsesBoth(j);
    NextAddress(s, s1, i, j);
    RightStoreStep(s1, j, s2);
    StorePair(s.mem, a, s.r[Rt(i)], p);
  }
}
