/** 32-bit words and bytes as bounded integers, with C's unsigned arithmetic written out. */
module Words {

  type Word = x: int | 0 <= x < 0x1_0000_0000
  type Byte = x: int | 0 <= x < 256

  /** Reduction modulo 2^32, the value of every unsigned C expression. */
  function Wrap(x: int): Word {
    x % 0x1_0000_0000
  }

  /** Unsigned negation. */
  function Neg(x: Word): Word {
    Wrap(0x1_0000_0000 - x)
  }

  /** The two's complement reading of a word: C's cast to int. */
  function Signed(w: Word): int {
    if w < 0x8000_0000 then w else w - 0x1_0000_0000
  }

  function Pow2(n: nat): (p: nat)
    ensures p >= 1
  {
    if n == 0 then 1 else 2 * Pow2(n - 1)
  }

  lemma {:induction false} Pow2Add(m: nat, n: nat)
    ensures Pow2(m + n) == Pow2(m) * Pow2(n)
  {
    if m == 0 {
    } else {
      Pow2Add(m - 1, n);
      assert Pow2(m + n) == 2 * Pow2(m - 1 + n);
      assert 2 * (Pow2(m - 1) * Pow2(n)) == Pow2(m) * Pow2(n);
    }
  }

  lemma Pow2Values()
    ensures Pow2(0) == 1 && Pow2(8) == 0x100 && Pow2(16) == 0x1_0000 && Pow2(24) == 0x100_0000
    ensures Pow2(28) == 0x1000_0000 && Pow2(31) == 0x8000_0000 && Pow2(32) == 0x1_0000_0000
  {
    assert Pow2(4) == 16;
    Pow2Add(4, 4);
    Pow2Add(8, 8);
    Pow2Add(8, 16);
    Pow2Add(4, 24);
    assert Pow2(3) == 8;
    Pow2Add(3, 28);
    Pow2Add(1, 31);
  }

  // ---------------------------------------------------------------------------
  // Bitwise operators, one bit at a time

  datatype BitOp = BitAnd | BitOr | BitXor

  predicate OnBits(op: BitOp, x: bool, y: bool) {
    match op
    case BitAnd => x && y
    case BitOr => x || y
    case BitXor => x != y
  }

  function Bits(op: BitOp, n: nat, x: nat, y: nat): (r: nat)
    requires x < Pow2(n) && y < Pow2(n)
    ensures r < Pow2(n)
  {
    if n == 0 then 0
    else 2 * Bits(op, n - 1, x / 2, y / 2) + if OnBits(op, x % 2 == 1, y % 2 == 1) then 1 else 0
  }

  function And(x: Word, y: Word): Word {
    Pow2Values();
    Bits(BitAnd, 32, x, y)
  }

  function Or(x: Word, y: Word): Word {
    Pow2Values();
    Bits(BitOr, 32, x, y)
  }

  function Xor(x: Word, y: Word): Word {
    Pow2Values();
    Bits(BitXor, 32, x, y)
  }

  function Not(x: Word): Word {
    0x1_0000_0000 - 1 - x
  }

  /** A left shift doubles as often, dropping what leaves the word. */
  function Shl(x: Word, n: nat): Word
    decreases n, x
  {
    if n == 0 then x else Shl(Wrap(2 * x), n - 1)
  }

  /** A right shift halves as often. */
  function Shr(x: Word, n: nat): Word
    decreases n, x
  {
    if n == 0 then x else Shr(x / 2, n - 1)
  }

  lemma {:induction false} ShlIsProduct(x: Word, n: nat)
    ensures Shl(x, n) == Wrap(x * Pow2(n))
    decreases n
  {
    hide Wrap;
    if n == 0 {
      WrapOnce(x);
    } else {
      ShlIsProduct(Wrap(2 * x), n - 1);
      WrapFactor(2 * x, Pow2(n - 1));
      assert 2 * x * Pow2(n - 1) == x * Pow2(n);
    }
  }

  lemma WrapFactor(x: int, p: int)
    ensures Wrap(Wrap(x) * p) == Wrap(x * p)
  {
    var q, w := x / 0x1_0000_0000, Wrap(x);
    var v := w * p;
    assert x * p == q * p * 0x1_0000_0000 + v by {
      assert x == q * 0x1_0000_0000 + w;
      assert (q * 0x1_0000_0000 + w) * p == q * p * 0x1_0000_0000 + w * p;
    }
    DivModUnique(x * p, 0x1_0000_0000, q * p + v / 0x1_0000_0000, v % 0x1_0000_0000);
  }

  lemma {:induction false} ShrIsQuotient(x: Word, n: nat)
    ensures Shr(x, n) == x / Pow2(n)
    decreases n
  {
    if n > 0 {
      ShrIsQuotient(x / 2, n - 1);
      HalfThenDivide(x, Pow2(n - 1));
    }
  }

  lemma HalfThenDivide(x: nat, p: nat)
    requires p >= 1
    ensures x / 2 / p == x / (2 * p)
  {
    var q, r := x / 2 / p, x / 2 % p;
    assert x == q * (2 * p) + (2 * r + x % 2) by {
      assert x / 2 == q * p + r;
    }
    DivModUnique(x, 2 * p, q, 2 * r + x % 2);
  }

  /** C's arithmetic right shift of a signed word. */
  function Sar(x: Word, n: nat): Word {
    Wrap(Signed(x) / Pow2(n))
  }

  lemma {:induction false} BitsZero(op: BitOp, n: nat, x: nat)
    requires x < Pow2(n)
    ensures Pow2(n) > 0
    ensures Bits(op, n, x, 0) == (if op == BitAnd then 0 else x)
  {
    if n > 0 {
      BitsZero(op, n - 1, x / 2);
    }
  }

  /** An OR of a shifted field and a field that fits below it is their sum. */
  lemma {:induction false} OrDisjoint(n: nat, k: nat, hi: nat, lo: nat)
    requires lo < Pow2(k) && hi * Pow2(k) < Pow2(n) && k <= n && lo < Pow2(n)
    ensures Bits(BitOr, n, hi * Pow2(k), lo) == hi * Pow2(k) + lo
  {
    if k == 0 {
      BitsZero(BitOr, n, hi);
    } else {
      assert hi * Pow2(k) == 2 * (hi * Pow2(k - 1));
      OrDisjoint(n - 1, k - 1, hi, lo / 2);
    }
  }

  lemma {:induction false} OrCommutes(n: nat, x: nat, y: nat)
    requires x < Pow2(n) && y < Pow2(n)
    ensures Bits(BitOr, n, x, y) == Bits(BitOr, n, y, x)
  {
    if n > 0 {
      OrCommutes(n - 1, x / 2, y / 2);
    }
  }

  /** An AND with 2^n - 1 changes nothing. */
  lemma {:induction false} AndOnes(n: nat, x: nat)
    requires x < Pow2(n)
    ensures Bits(BitAnd, n, Pow2(n) - 1, x) == x
  {
    if n > 0 {
      assert (Pow2(n) - 1) / 2 == Pow2(n - 1) - 1;
      AndOnes(n - 1, x / 2);
    }
  }

  /** An AND with a low mask keeps the remainder. */
  lemma {:induction false} AndLowMask(n: nat, k: nat, x: nat)
    requires k <= n && x < Pow2(n) && Pow2(k) - 1 < Pow2(n)
    ensures Bits(BitAnd, n, Pow2(k) - 1, x) == x % Pow2(k)
  {
    if k == 0 {
      AndCommutes(n, 0, x);
      BitsZero(BitAnd, n, x);
    } else {
      assert (Pow2(k) - 1) / 2 == Pow2(k - 1) - 1;
      AndLowMask(n - 1, k - 1, x / 2);
      ModTwice(x, Pow2(k - 1));
    }
  }

  lemma {:induction false} AndCommutes(n: nat, x: nat, y: nat)
    requires x < Pow2(n) && y < Pow2(n)
    ensures Bits(BitAnd, n, x, y) == Bits(BitAnd, n, y, x)
  {
    if n > 0 {
      AndCommutes(n - 1, x / 2, y / 2);
    }
  }

  /** x % 2p splits into the parity of x and the remainder of its half. */
  lemma ModTwice(x: nat, p: nat)
    requires p >= 1
    ensures x % (2 * p) == 2 * ((x / 2) % p) + x % 2
  {
    var q, r := (x / 2) / p, (x / 2) % p;
    assert x == 2 * (q * p + r) + x % 2;
    DivModUnique(x, 2 * p, q, 2 * r + x % 2);
  }

  lemma DivModUnique(x: int, d: int, q: int, r: int)
    requires d > 0 && 0 <= r < d && x == q * d + r
    ensures x / d == q && x % d == r
  {
    var k := q - x / d;
    assert k * d == x % d - r by {
      assert x == x / d * d + x % d;
      assert k * d == q * d - x / d * d;
    }
    MulAtLeast(k, d);
  }

  lemma MulAtLeast(k: int, d: int)
    requires d > 0
    ensures k >= 1 ==> k * d >= d
    ensures k <= -1 ==> k * d <= -d
  {
    if k >= 1 {
      assert k * d == (k - 1) * d + d;
    } else {
      assert k * d == (k + 1) * d - d;
    }
  }

  /** An AND with a high mask clears the remainder. */
  lemma {:induction false} AndHighMask(n: nat, k: nat, x: nat)
    requires k <= n && x < Pow2(n) && Pow2(k) <= Pow2(n)
    ensures Bits(BitAnd, n, Pow2(n) - Pow2(k), x) == x - x % Pow2(k)
  {
    if k == 0 {
      AndOnes(n, x);
    } else {
      assert (Pow2(n) - Pow2(k)) / 2 == Pow2(n - 1) - Pow2(k - 1);
      AndHighMask(n - 1, k - 1, x / 2);
      ModTwice(x, Pow2(k - 1));
    }
  }

  /** Bit n of the result of a bitwise operator is the operator on bit n of the operands. */
  lemma {:induction false} TopBit(op: BitOp, n: nat, x: nat, y: nat)
    requires x < Pow2(n + 1) && y < Pow2(n + 1)
    ensures Bits(op, n + 1, x, y) >= Pow2(n) <==> OnBits(op, x >= Pow2(n), y >= Pow2(n))
  {
    if n > 0 {
      TopBit(op, n - 1, x / 2, y / 2);
      assert x >= Pow2(n) <==> x / 2 >= Pow2(n - 1);
      assert y >= Pow2(n) <==> y / 2 >= Pow2(n - 1);
    }
  }

  lemma WrapOnce(x: nat)
    requires x < 2 * 0x1_0000_0000
    ensures Wrap(x) == if x < 0x1_0000_0000 then x else x - 0x1_0000_0000
  {
    if x >= 0x1_0000_0000 {
      DivModUnique(x, 0x1_0000_0000, 1, x - 0x1_0000_0000);
    }
  }

  lemma WrapDrop(x: int, y: int)
    ensures Wrap(Wrap(x) + y) == Wrap(x + y)
  {
    var q := x / 0x1_0000_0000;
    var w := Wrap(x) + y;
    DivModUnique(x + y, 0x1_0000_0000, w / 0x1_0000_0000 + q, w % 0x1_0000_0000);
  }

  lemma AddAssociates(x: Word, y: Word, z: Word)
    ensures Wrap(Wrap(x + y) + z) == Wrap(x + Wrap(y + z)) == Wrap(x + y + z)
  {
    WrapDrop(x + y, z);
    WrapDrop(y + z, x);
  }

  // ---------------------------------------------------------------------------
  // Big-endian bytes of a word

  /** The number that bytes stand for, most significant first. */
  function Number(bs: seq<Byte>): (v: nat)
    ensures v < Pow2(8 * |bs|)
    decreases |bs|
  {
    if bs == [] then 0
    else
      Pow2Add(8, 8 * (|bs| - 1));
      assert Pow2(8) == 256;
      256 * Number(bs[..|bs| - 1]) + bs[|bs| - 1]
  }

  function Join(b0: Byte, b1: Byte, b2: Byte, b3: Byte): Word {
    Pow2Values();
    Number([b0, b1, b2, b3])
  }

  lemma JoinIs(b0: Byte, b1: Byte, b2: Byte, b3: Byte)
    ensures Join(b0, b1, b2, b3) == b0 * 0x100_0000 + b1 * 0x1_0000 + b2 * 0x100 + b3
  {
    assert [b0, b1, b2, b3][..3] == [b0, b1, b2] && [b0, b1, b2][..2] == [b0, b1] && [b0, b1][..1] == [b0];
    assert Number([b0]) == b0;
    assert Number([b0, b1]) == 256 * b0 + b1;
    assert Number([b0, b1, b2]) == 256 * (256 * b0 + b1) + b2;
  }

  function ByteOf(w: Word, k: nat): Byte
    requires k < 4
  {
    if k == 3 then w % 256
    else if k == 2 then w / 256 % 256
    else if k == 1 then w / 256 / 256 % 256
    else w / 256 / 256 / 256
  }

  lemma JoinBytes(w: Word)
    ensures Join(ByteOf(w, 0), ByteOf(w, 1), ByteOf(w, 2), ByteOf(w, 3)) == w
  {
    hide Join;
    JoinIs(ByteOf(w, 0), ByteOf(w, 1), ByteOf(w, 2), ByteOf(w, 3));
  }

  lemma BytesJoin(b0: Byte, b1: Byte, b2: Byte, b3: Byte)
    ensures var w := Join(b0, b1, b2, b3);
            ByteOf(w, 0) == b0 && ByteOf(w, 1) == b1 && ByteOf(w, 2) == b2 && ByteOf(w, 3) == b3
  {
    hide Join;
    JoinIs(b0, b1, b2, b3);
    var w := Join(b0, b1, b2, b3);
    DivModUnique(w, 256, b0 * 0x1_0000 + b1 * 256 + b2, b3);
    DivModUnique(b0 * 0x1_0000 + b1 * 256 + b2, 256, b0 * 256 + b1, b2);
    DivModUnique(b0 * 256 + b1, 256, b0, b1);
  }
}
