/** The overflow test of ADD and SUB, as the simulator has it. */
module Overflow {
  import opened Words
  import opened Cpu

  const SIGN := 0x8000_0000

  /** A signed addition that does not fit in a word. */
  predicate Overflows(s: Word, t: Word) {
    var sum := Signed(s) + Signed(t);
    sum < -SIGN || SIGN <= sum
  }

  lemma TopXor(x: Word, y: Word)
    ensures Xor(x, y) >= SIGN <==> (x >= SIGN) != (y >= SIGN)
  {
    Pow2Values();
    TopBit(BitXor, 31, x, y);
    hide Bits, Pow2;
  }

  lemma TopOr(x: Word, y: Word)
    ensures Or(x, y) >= SIGN <==> x >= SIGN || y >= SIGN
  {
    Pow2Values();
    TopBit(BitOr, 31, x, y);
    hide Bits, Pow2;
  }

  /** The test traps exactly when an operand is negative, since it looks at the number of the
      destination register instead of the result. It decides overflow exactly for two operands that
      are not negative and do not overflow, and for two negative ones that do. */
  lemma OverflowTestSeesSigns(s: Word, t: Word, wbr: RegNo)
    ensures TakenForOverflow(s, t, wbr) <==> s >= SIGN || t >= SIGN
    ensures TakenForOverflow(s, t, wbr) == Overflows(s, t) <==>
            (s < SIGN && t < SIGN && s + t < SIGN) || (s >= SIGN && t >= SIGN && s + t < 3 * SIGN)
  {
    TopXor(s, t);
    TopXor(s, wbr);
    TopOr(Xor(s, t), Xor(s, wbr));
    hide Xor, Or;
  }

  /** Adding one to minus one traps and does not overflow; doubling the largest positive word
      overflows and does not trap. */
  lemma OverflowTestErrs(wbr: RegNo)
    ensures TakenForOverflow(0xFFFF_FFFF, 1, wbr) && !Overflows(0xFFFF_FFFF, 1)
    ensures !TakenForOverflow(0x7FFF_FFFF, 0x7FFF_FFFF, wbr) && Overflows(0x7FFF_FFFF, 0x7FFF_FFFF)
  {
    OverflowTestSeesSigns(0xFFFF_FFFF, 1, wbr);
    OverflowTestSeesSigns(0x7FFF_FFFF, 0x7FFF_FFFF, wbr);
    hide TakenForOverflow;
  }
}
