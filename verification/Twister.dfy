/** The in-place Mersenne Twister (without tempering), the recurrence it computes, and what one
    regeneration of its buffer preserves. */
module Twister {
  const LEN := 624
  const IA := 397
  const IB := LEN - IA
  const UPPER_MASK: bv32 := 0x8000_0000
  const LOWER_MASK: bv32 := 0x7FFF_FFFF
  const MATRIX_A: bv32 := 0x9908_B0DF

  type Buffer = b: seq<bv32> | |b| == LEN witness seq(LEN, _ => 0)

  function Top(x: bv32): bv32 {
    x & UPPER_MASK
  }

  function Low(x: bv32): bv32 {
    x & LOWER_MASK
  }

  /** The top bit of one word and the low 31 bits of the next. */
  function Twist(x: bv32, y: bv32): bv32 {
    Top(x) | Low(y)
  }

  /** The linear step: shift right, and add the matrix row when a one is shifted out. */
  function Mix(s: bv32): bv32 {
    (s >> 1) ^ ((s & 1) * MATRIX_A)
  }

  /** Addition of words over GF(2): exclusive or. */
  function Plus(x: bv32, y: bv32): bv32 {
    x ^ y
  }

  lemma PlusCancels(x: bv32, y: bv32)
    ensures Plus(Plus(x, y), x) == y && Plus(Plus(y, x), x) == y && Plus(x, Plus(x, y)) == y
    ensures Plus(x, Plus(y, x)) == y
  {
  }

  /** The infinite sequence that starts with the buffer and continues by the recurrence
      x[n + 624] = x[n + 397] ^ Mix(Twist(x[n], x[n + 1])). */
  function X(b: Buffer, n: nat): bv32 {
    if n < LEN then b[n] else Plus(X(b, n - IB), Mix(Twist(X(b, n - LEN), X(b, n - LEN + 1))))
  }

  lemma XStep(b: Buffer, n: nat)
    requires n >= LEN
    ensures X(b, n) == Plus(X(b, n - IB), Mix(Twist(X(b, n - LEN), X(b, n - LEN + 1))))
  {
  }

  // ---------------------------------------------------------------------------
  // The recurrence bit by bit

  type Position = k: int | 0 <= k < 32

  predicate Odd(x: bv32) {
    x & 1 == 1
  }

  function Half(x: bv32): bv32 {
    x >> 1
  }

  /** Bit k of a word, counting from the lowest. */
  predicate Bit(x: bv32, k: nat)
    decreases k
  {
    if k == 0 then Odd(x) else Bit(Half(x), k - 1)
  }

  /** How bit k of a word x[n] depends on w = x[n - 227], u = x[n - 624] and v = x[n - 623]: the low 31
      bits of v and the top bit of u, shifted right, and the row 0x9908B0DF when bit 0 of v is set. */
  predicate NextBit(w: bv32, u: bv32, v: bv32, k: Position) {
    var shifted := if k < 30 then Bit(v, k + 1) else k == 30 && Bit(u, 31);
    var row := Bit(v, 0) && Bit(0x9908_B0DF, k);
    Bit(w, k) != (shifted != row)
  }

  /** A sequence that starts with the 624 words of the buffer and goes on by the recurrence. */
  ghost predicate IsStream(b: Buffer, x: nat -> bv32) {
    (forall n: nat :: n < 624 ==> x(n) == b[n]) &&
    (forall n: nat, k: Position :: n >= 624 ==> (Bit(x(n), k) <==> NextBit(x(n - 227), x(n - 624), x(n - 623), k)))
  }

  function Masked(x: bv32, m: bv32): bv32 {
    x & m
  }

  function Double(m: bv32): bv32 {
    m << 1
  }

  function DoubleAndOne(m: bv32): bv32 {
    (m << 1) | 1
  }

  /** The lowest j bits. */
  function LowMask(j: nat): bv32 {
    if j == 0 then 0 else DoubleAndOne(LowMask(j - 1))
  }

  /** Bit k alone. */
  function BitMask(k: nat): bv32 {
    if k == 0 then 1 else Double(BitMask(k - 1))
  }

  lemma MaskValues()
    ensures LowMask(31) == 0x7FFF_FFFF && LowMask(32) == 0xFFFF_FFFF && BitMask(31) == 0x8000_0000
  {
    assert LowMask(8) == 0xFF && BitMask(8) == 0x100;
    assert LowMask(16) == 0xFFFF && BitMask(16) == 0x1_0000;
    assert LowMask(24) == 0xFF_FFFF && BitMask(24) == 0x100_0000;
    assert LowMask(31) == 0x7FFF_FFFF;
  }

  lemma LowMaskHalves(x: bv32, y: bv32, m: bv32)
    ensures Masked(x, DoubleAndOne(m)) == Masked(y, DoubleAndOne(m)) ==>
              Odd(x) == Odd(y) && Masked(Half(x), m) == Masked(Half(y), m)
  {
  }

  lemma LowMaskJoins(x: bv32, y: bv32, m: bv32)
    requires Odd(x) == Odd(y) && Masked(Half(x), m) == Masked(Half(y), m)
    ensures Masked(x, DoubleAndOne(m)) == Masked(y, DoubleAndOne(m))
  {
  }

  lemma BitMaskHalves(x: bv32, y: bv32, m: bv32)
    requires Masked(x, Double(m)) == Masked(y, Double(m))
    ensures Masked(Half(x), m) == Masked(Half(y), m)
  {
  }

  lemma LowestMask(x: bv32, y: bv32)
    requires Masked(x, 1) == Masked(y, 1)
    ensures Odd(x) == Odd(y)
  {
  }

  /** Words that agree in the lowest j bits agree in each of them. */
  lemma {:induction false} LowBitsSame(x: bv32, y: bv32, j: nat, k: nat)
    requires Masked(x, LowMask(j)) == Masked(y, LowMask(j)) && k < j
    ensures Bit(x, k) == Bit(y, k)
    decreases j
  {
    hide Odd, Half, Masked, DoubleAndOne;
    LowMaskHalves(x, y, LowMask(j - 1));
    if k > 0 {
      LowBitsSame(Half(x), Half(y), j - 1, k - 1);
    }
  }

  /** And the other way round. */
  lemma {:induction false} SameLowBits(x: bv32, y: bv32, j: nat)
    requires forall k: nat :: k < j ==> Bit(x, k) == Bit(y, k)
    ensures Masked(x, LowMask(j)) == Masked(y, LowMask(j))
    decreases j
  {
    hide Odd, Half, Masked, DoubleAndOne;
    if j == 0 {
      NoBits(x);
      NoBits(y);
    } else {
      assert Bit(x, 0) == Bit(y, 0);
      forall k: nat | k < j - 1 ensures Bit(Half(x), k) == Bit(Half(y), k) {
        assert Bit(x, k + 1) == Bit(y, k + 1);
      }
      SameLowBits(Half(x), Half(y), j - 1);
      LowMaskJoins(x, y, LowMask(j - 1));
    }
  }

  lemma NoBits(x: bv32)
    ensures Masked(x, 0) == 0
  {
  }

  lemma AllBits(x: bv32)
    ensures Masked(x, 0xFFFF_FFFF) == x
  {
  }

  lemma SameBits(x: bv32, y: bv32)
    requires forall k: Position :: Bit(x, k) == Bit(y, k)
    ensures x == y
  {
    hide Bit, Masked;
    MaskValues();
    hide LowMask, BitMask;
    SameLowBits(x, y, 32);
    AllBits(x);
    AllBits(y);
  }

  lemma {:induction false} SingleBitSame(x: bv32, y: bv32, k: nat)
    requires Masked(x, BitMask(k)) == Masked(y, BitMask(k))
    ensures Bit(x, k) == Bit(y, k)
    decreases k
  {
    hide Odd, Half, Masked, Double;
    if k == 0 {
      LowestMask(x, y);
    } else {
      BitMaskHalves(x, y, BitMask(k - 1));
      SingleBitSame(Half(x), Half(y), k - 1);
    }
  }

  lemma TwistBits(u: bv32, v: bv32, k: Position)
    ensures Bit(Twist(u, v), k) == if k == 31 then Bit(u, 31) else Bit(v, k)
  {
    hide Bit, Twist, Masked;
    TwistMasks(u, v);
    MaskValues();
    hide LowMask, BitMask;
    if k == 31 {
      SingleBitSame(Twist(u, v), u, 31);
    } else {
      LowBitsSame(Twist(u, v), v, 31, k);
    }
  }

  lemma TwistMasks(u: bv32, v: bv32)
    ensures Masked(Twist(u, v), 0x8000_0000) == Masked(u, 0x8000_0000)
    ensures Masked(Twist(u, v), 0x7FFF_FFFF) == Masked(v, 0x7FFF_FFFF)
  {
  }

  lemma {:induction false} ZeroBits(k: nat)
    ensures !Bit(0, k)
  {
    assert Half(0) == 0;
    if k > 0 {
      ZeroBits(k - 1);
    }
  }

  /** A right shift moves the bits down. */
  lemma HalfBits(s: bv32, k: Position)
    ensures Bit(Half(s), k) <==> k < 31 && Bit(s, k + 1)
  {
    hide Odd, Half, Masked;
    if k == 31 {
      MaskValues();
      hide BitMask, LowMask;
      ShiftedOut(s);
      SingleBitSame(Half(s), 0, 31);
      ZeroBits(31);
    }
  }

  lemma ShiftedOut(s: bv32)
    ensures Masked(Half(s), 0x8000_0000) == Masked(0, 0x8000_0000)
  {
  }

  lemma PlusHalves(x: bv32, y: bv32)
    ensures Half(Plus(x, y)) == Plus(Half(x), Half(y))
  {
  }

  lemma PlusLowest(x: bv32, y: bv32)
    ensures Odd(Plus(x, y)) <==> Odd(x) != Odd(y)
  {
  }

  lemma {:induction false} PlusBits(x: bv32, y: bv32, k: nat)
    ensures Bit(Plus(x, y), k) <==> Bit(x, k) != Bit(y, k)
    decreases k
  {
    hide Odd, Half, Plus;
    if k == 0 {
      PlusLowest(x, y);
    } else {
      PlusHalves(x, y);
      PlusBits(Half(x), Half(y), k - 1);
    }
  }

  lemma MixParts(s: bv32)
    ensures Mix(s) == if Odd(s) then Plus(Half(s), 0x9908_B0DF) else Half(s)
  {
    MixCases(s);
    hide Mix;
  }

  lemma MixBits(s: bv32, k: Position)
    ensures Bit(Mix(s), k) <==> (k < 31 && Bit(s, k + 1)) != (Bit(s, 0) && Bit(0x9908_B0DF, k))
  {
    hide Mix, Odd, Half, Plus;
    MixParts(s);
    HalfBits(s, k);
    PlusBits(Half(s), 0x9908_B0DF, k);
  }

  lemma StepBits(w: bv32, u: bv32, v: bv32, k: Position)
    ensures Bit(Plus(w, Mix(Twist(u, v))), k) <==> NextBit(w, u, v, k)
  {
    hide Mix, Bit, Plus, Twist;
    var s := Twist(u, v);
    PlusBits(w, Mix(s), k);
    MixBits(s, k);
    TwistBits(u, v, 0);
    if k < 31 {
      TwistBits(u, v, k + 1);
    }
  }

  /** The generator's sequence is the only such sequence. */
  lemma {:induction false} OnlyStream(b: Buffer, x: nat -> bv32, n: nat)
    requires IsStream(b, x)
    ensures x(n) == X(b, n)
  {
    hide Plus, Mix, Twist, Bit, NextBit;
    if n >= LEN {
      OnlyStream(b, x, n - IB);
      OnlyStream(b, x, n - LEN);
      OnlyStream(b, x, n - LEN + 1);
      XStep(b, n);
      forall k: Position ensures Bit(x(n), k) == Bit(X(b, n), k) {
        StepBits(X(b, n - IB), X(b, n - LEN), X(b, n - LEN + 1), k);
      }
      SameBits(x(n), X(b, n));
    }
  }

  lemma XIsStream(b: Buffer)
    ensures IsStream(b, (n: nat) => X(b, n))
  {
    hide Plus, Mix, Twist, Bit, NextBit;
    forall n: nat, k: Position | n >= 624
      ensures Bit(X(b, n), k) <==> NextBit(X(b, n - 227), X(b, n - 624), X(b, n - 623), k)
    {
      XStep(b, n);
      StepBits(X(b, n - IB), X(b, n - LEN), X(b, n - LEN + 1), k);
    }
  }

  // ---------------------------------------------------------------------------
  // The generator

  class RandomSource {
    const buffer: array<bv32>
    var index: nat            // in bytes, as the source keeps it
    ghost var seed: Buffer    // the buffer at the last seeding
    ghost var base: nat       // calls since then that the buffer has been regenerated past

    ghost predicate Valid()
      reads this, buffer
    {
      buffer.Length == LEN && index % 4 == 0 && index <= 4 * LEN &&
      forall j :: 0 <= j < LEN ==> buffer[j] == X(seed, base + j)
    }

    /** Calls of Random since the last seeding. */
    ghost function Calls(): nat
      reads this
    {
      base + index / 4
    }

    constructor (initial: Buffer)
      ensures Valid() && Calls() == 0 && seed == initial && fresh(buffer)
    {
      buffer := new bv32[LEN](i requires 0 <= i < LEN => initial[i]);
      index, seed, base := 0, initial, 0;
    }

    method Srandom(s: bv32)
      requires Valid()
      modifies this, buffer
      ensures Valid() && Calls() == 0
      ensures forall i :: 0 <= i < LEN ==> seed[i] == Plus(old(buffer[i]), s)
    {
      hide Plus;
      var i := 0;
      while i < LEN
        invariant i <= LEN
        invariant forall j :: 0 <= j < i ==> buffer[j] == Plus(old(buffer[j]), s)
        invariant forall j :: i <= j < LEN ==> buffer[j] == old(buffer[j])
      {
        buffer[i] := Plus(buffer[i], s);
        i := i + 1;
      }
      index, base, seed := 0, 0, buffer[..];
    }

    /** The n-th call after a seeding returns x[n]. */
    method Random() returns (r: bv32)
      requires Valid()
      modifies this, buffer
      ensures Valid() && seed == old(seed) && Calls() == old(Calls()) + 1
      ensures r == X(seed, old(Calls()))
      ensures forall x: nat -> bv32 :: IsStream(seed, x) ==> r == x(old(Calls()))
    {
      var idx := index;
      if idx == LEN * 4 {
        idx := 0;
        RegenerateInPlace();
        base := base + LEN;
      }
      index := idx + 4;
      r := buffer[idx / 4];
      forall x: nat -> bv32 | IsStream(seed, x) ensures r == x(old(Calls())) {
        OnlyStream(seed, x, old(Calls()));
      }
    }

    /** Regenerates the buffer in place, in three differently indexed passes. */
    method RegenerateInPlace()
      requires buffer.Length == LEN && forall j :: 0 <= j < LEN ==> buffer[j] == X(seed, base + j)
      modifies buffer
      ensures forall j :: 0 <= j < LEN ==> buffer[j] == X(seed, base + LEN + j)
    {
      hide X, Twist, Mix, Plus;
      var i := 0;
      while i < IB
        invariant i <= IB
        invariant forall j :: 0 <= j < LEN ==> buffer[j] == X(seed, if j < i then base + LEN + j else base + j)
      {
        XStep(seed, base + LEN + i);
        var s := Twist(buffer[i], buffer[i + 1]);
        buffer[i] := Plus(buffer[i + IA], Mix(s));
        i := i + 1;
      }
      while i < LEN - 1
        invariant IB <= i < LEN
        invariant forall j :: 0 <= j < LEN ==> buffer[j] == X(seed, if j < i then base + LEN + j else base + j)
      {
        XStep(seed, base + LEN + i);
        var s := Twist(buffer[i], buffer[i + 1]);
        buffer[i] := Plus(buffer[i - IB], Mix(s));
        i := i + 1;
      }
      XStep(seed, base + LEN + LEN - 1);
      var s := Twist(buffer[LEN - 1], buffer[0]);
      buffer[LEN - 1] := Plus(buffer[IA - 1], Mix(s));
    }
  }

  // ---------------------------------------------------------------------------
  // What one regeneration loses and what it keeps

  function Regenerate(b: Buffer): (y: Buffer)
    ensures forall k :: 0 <= k < LEN ==> y[k] == X(b, LEN + k)
  {
    seq(LEN, k requires 0 <= k < LEN => X(b, LEN + k))
  }

  /** The sequence after a regeneration is the same sequence, 624 places on. */
  lemma {:induction false} RegenerateShifts(b: Buffer, n: nat)
    ensures X(Regenerate(b), n) == X(b, LEN + n)
  {
    hide Plus, Top, Low, Twist, Mix;
    if n < LEN {
    } else {
      RegenerateShifts(b, n - IB);
      RegenerateShifts(b, n - LEN);
      RegenerateShifts(b, n - LEN + 1);
    }
  }

  /** The inverse of Mix: the top bit of the result tells what was shifted out. */
  function Unmix(r: bv32): bv32 {
    var out := r >> 31;
    ((r ^ (out * MATRIX_A)) << 1) | out
  }

  lemma MixInvertible(s: bv32)
    ensures Unmix(Mix(s)) == s && Mix(Unmix(s)) == s
  {
    UnmixOfMix(s);
    MixOfUnmix(s);
  }

  lemma UnmixOfMix(s: bv32)
    ensures Unmix(Mix(s)) == s
  {
    hide Mix, Unmix;
    MixCases(s);
    UnmixCases(Mix(s));
  }

  lemma MixOfUnmix(r: bv32)
    ensures Mix(Unmix(r)) == r
  {
    hide Mix, Unmix;
    HighBit(r);
    if r >> 31 == 1 {
      UnmixOdd(r);
      MixOdd(Unmix(r), r);
    } else {
      UnmixEven(r);
      MixEven(Unmix(r), r);
    }
  }

  lemma UnmixOdd(r: bv32)
    requires r >> 31 == 1
    ensures Unmix(r) & 1 == 1 && Unmix(r) >> 1 == r ^ MATRIX_A
  {
    UnmixCases(r);
    hide Unmix;
  }

  lemma UnmixEven(r: bv32)
    requires r >> 31 == 0
    ensures Unmix(r) & 1 == 0 && Unmix(r) >> 1 == r
  {
    UnmixCases(r);
    hide Unmix;
  }

  lemma MixOdd(u: bv32, r: bv32)
    requires u & 1 == 1 && u >> 1 == r ^ MATRIX_A
    ensures Mix(u) == r
  {
    MixCases(u);
  }

  lemma MixEven(u: bv32, r: bv32)
    requires u & 1 == 0 && u >> 1 == r
    ensures Mix(u) == r
  {
    MixCases(u);
  }

  lemma MixCases(s: bv32)
    ensures Mix(s) == if s & 1 == 1 then (s >> 1) ^ MATRIX_A else s >> 1
  {
    LowBit(s);
    MagicValue(s & 1);
  }

  lemma UnmixCases(r: bv32)
    ensures Unmix(r) == if r >> 31 == 1 then ((r ^ MATRIX_A) << 1) | 1 else r << 1
  {
    HighBit(r);
    MagicValue(r >> 31);
  }

  lemma LowBit(s: bv32)
    ensures s & 1 == 0 || s & 1 == 1
  {
  }

  lemma HighBit(r: bv32)
    ensures r >> 31 == 0 || r >> 31 == 1
  {
  }

  lemma MagicValue(bit: bv32)
    requires bit == 0 || bit == 1
    ensures bit * MATRIX_A == if bit == 1 then MATRIX_A else 0
  {
  }

  lemma TwistParts(x: bv32, y: bv32)
    ensures Top(Twist(x, y)) == Top(x) && Low(Twist(x, y)) == Low(y)
  {
  }

  /** The k-th twisted pair, recovered from the new buffer, for the pairs whose partner word is
      itself new. */
  function LatePair(y: Buffer, k: nat): bv32
    requires IB <= k < LEN
  {
    Unmix(Plus(y[k], y[k - IB]))
  }

  /** The k-th twisted pair, recovered from the new buffer. */
  function Pair(y: Buffer, k: nat): bv32
    requires k < LEN
  {
    if k >= IB then LatePair(y, k)
    else Unmix(Plus(y[k], Twist(LatePair(y, k + IA), LatePair(y, k + IA - 1))))
  }

  /** The old buffer, recovered from the new one; the low bits of word 0 are lost. */
  function Recover(y: Buffer): (b: Buffer) {
    seq(LEN, j requires 0 <= j < LEN =>
      if j == 0 then Top(Pair(y, 0)) else Twist(Pair(y, j), Pair(y, j - 1)))
  }

  lemma LatePairOf(b: Buffer, k: nat)
    requires IB <= k < LEN
    ensures LatePair(Regenerate(b), k) == Twist(X(b, k), X(b, k + 1))
  {
    hide Plus, Top, Low, Twist, Mix, Unmix, X;
    var y := Regenerate(b);
    var s := Twist(X(b, k), X(b, k + 1));
    XStep(b, LEN + k);
    assert y[k] == Plus(y[k - IB], Mix(s));
    PlusCancels(y[k - IB], Mix(s));
    MixInvertible(s);
  }

  lemma PairOf(b: Buffer, k: nat)
    requires k < LEN
    ensures Pair(Regenerate(b), k) == Twist(X(b, k), X(b, k + 1))
  {
    hide Plus, Top, Low, Twist, Mix, Unmix, LatePair;
    if k >= IB {
      LatePairOf(b, k);
    } else {
      XStep(b, LEN + k);
      var y, j := Regenerate(b), k + IA;
      var s := Twist(b[k], b[k + 1]);
      LatePairOf(b, j);
      LatePairOf(b, j - 1);
      JoinHalves(b[j - 1], b[j], X(b, j + 1));
      assert y[k] == Plus(b[j], Mix(s));
      PlusCancels(b[j], Mix(s));
      MixInvertible(s);
    }
  }

  lemma JoinHalves(x: bv32, y: bv32, z: bv32)
    ensures Twist(Twist(y, z), Twist(x, y)) == y
  {
  }

  /** A regeneration is undone by Recover, except for the low 31 bits of word 0. */
  lemma RecoverUndoesRegenerate(b: Buffer)
    ensures Recover(Regenerate(b)) == b[0 := Top(b[0])]
  {
    hide Plus, Top, Low, Twist, Mix, Unmix, Pair, Regenerate;
    forall j | 0 <= j < LEN
      ensures Recover(Regenerate(b))[j] == b[0 := Top(b[0])][j]
    {
      PairOf(b, j);
      if j == 0 {
        TwistParts(b[0], b[1]);
      } else {
        PairOf(b, j - 1);
        JoinHalves(b[j - 1], b[j], X(b, j + 1));
      }
    }
  }

  lemma TwistDepends(x: bv32, x': bv32, y: bv32)
    requires Top(x) == Top(x')
    ensures Twist(x, y) == Twist(x', y)
  {
  }

  lemma {:induction false} LowBitsUnused(b: Buffer, b': Buffer, n: nat)
    requires b'[1..] == b[1..] && Top(b'[0]) == Top(b[0])
    ensures n > 0 ==> X(b', n) == X(b, n)
    ensures Top(X(b', n)) == Top(X(b, n))
  {
    hide Plus, Top, Low, Twist, Mix;
    if n == 0 {
    } else if n < LEN {
      assert b'[n] == b'[1..][n - 1] && b[n] == b[1..][n - 1];
    } else {
      LowBitsUnused(b, b', n - IB);
      LowBitsUnused(b, b', n - LEN);
      LowBitsUnused(b, b', n - LEN + 1);
      TwistDepends(X(b, n - LEN), X(b', n - LEN), X(b, n - LEN + 1));
    }
  }

  /** Two buffers regenerate to the same buffer exactly when they agree outside the low 31 bits
      of word 0. */
  lemma RegenerateInjective(b: Buffer, b': Buffer)
    ensures Regenerate(b) == Regenerate(b') <==>
            Top(b[0]) == Top(b'[0]) && b[1..] == b'[1..]
  {
    if Regenerate(b) == Regenerate(b') {
      RecoverUndoesRegenerate(b);
      RecoverUndoesRegenerate(b');
      var c, c' := b[0 := Top(b[0])], b'[0 := Top(b'[0])];
      assert c[0] == c'[0] && c[1..] == c'[1..];
      assert c[1..] == b[1..] && c'[1..] == b'[1..];
    }
    if Top(b[0]) == Top(b'[0]) && b[1..] == b'[1..] {
      forall k | 0 <= k < LEN
        ensures Regenerate(b)[k] == Regenerate(b')[k]
      {
        LowBitsUnused(b', b, LEN + k);
      }
    }
  }

  /** A buffer has been regenerated from some buffer exactly when the low bits of its first word
      are those of the last recovered pair. */
  lemma RegenerateImage(y: Buffer)
    ensures (exists b: Buffer :: Regenerate(b) == y) <==>
            Low(y[0]) == Low(Pair(y, LEN - 1))
  {
    hide Plus, Top, Low, Twist, Mix, Unmix, Pair, X, Recover;
    if Low(y[0]) == Low(Pair(y, LEN - 1)) {
      forall k | 0 <= k < LEN
        ensures Regenerate(Recover(y))[k] == y[k]
      {
        RegenerateRecovered(y, k);
      }
      assert Regenerate(Recover(y)) == y;
    }
    forall b: Buffer | Regenerate(b) == y
      ensures Low(y[0]) == Low(Pair(y, LEN - 1))
    {
      PairOf(b, LEN - 1);
      TwistParts(X(b, LEN - 1), X(b, LEN));
    }
  }

  lemma {:induction false} RegenerateRecovered(y: Buffer, k: nat)
    requires k < LEN && Low(y[0]) == Low(Pair(y, LEN - 1))
    ensures X(Recover(y), LEN + k) == y[k]
  {
    hide Plus, Top, Low, Twist, Mix, Unmix, Recover, X;
    var b := Recover(y);
    XStep(b, LEN + k);
    XStart(b, k);
    if k == LEN - 1 {
      RegenerateRecovered(y, 0);
    } else {
      XStart(b, k + 1);
    }
    TwistOfHalves(y, k, X(b, k + 1));
    if k < IB {
      XStart(b, k + IA);
      RecoverAt(y, k + IA);
      MixInvertible(Plus(y[k], b[k + IA]));
      PlusCancels(b[k + IA], y[k]);
    } else {
      RegenerateRecovered(y, k - IB);
      MixInvertible(Plus(y[k], y[k - IB]));
      PlusCancels(y[k - IB], y[k]);
    }
  }

  lemma XStart(b: Buffer, n: nat)
    requires n < LEN
    ensures X(b, n) == b[n]
  {
  }

  lemma RecoverAt(y: Buffer, j: nat)
    requires j < LEN
    ensures Recover(y)[j] == if j == 0 then Top(Pair(y, 0)) else Twist(Pair(y, j), Pair(y, j - 1))
  {
  }

  lemma TwistOfHalves(y: Buffer, k: nat, next: bv32)
    requires k < LEN
    requires if k < LEN - 1 then next == Recover(y)[k + 1]
             else Low(next) == Low(Pair(y, LEN - 1))
    ensures Twist(Recover(y)[k], next) == Pair(y, k)
  {
    hide Top, Low, Twist, Pair, Recover;
    var s := Pair(y, k);
    RecoverAt(y, k);
    if k > 0 {
      TwistParts(s, Pair(y, k - 1));
    } else {
      TopBitTwice(s);
    }
    if k < LEN - 1 {
      RecoverAt(y, k + 1);
      TwistParts(Pair(y, k + 1), s);
    }
    TwistOfParts(Recover(y)[k], next, s);
  }

  lemma TwistOfParts(x: bv32, y: bv32, s: bv32)
    requires Top(x) == Top(s) && Low(y) == Low(s)
    ensures Twist(x, y) == s
  {
  }

  lemma TopBitTwice(s: bv32)
    ensures Top(Top(s)) == Top(s)
  {
  }
}
