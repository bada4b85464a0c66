/** Big-endian byte memory and the simulator's load and store on it. */
module Memory {
  import opened Words

  /** The mapped bytes. The simulator maps whole segment prefixes, so an aligned unit of two or
      four bytes is mapped as soon as its first and last bytes are. */
  type Mem = map<Word, Byte>

  /** Why a simulation stops. Device and Unmodelled mark paths outside this model. */
  datatype Halt = AccessViolation | Fatal | Exit | Device | Unmodelled

  datatype Access = Value(w: Word) | Fault(why: Halt)

  datatype Stored = Stored(mem: Mem) | StoreFault(why: Halt)

  function At(m: Mem, a: Word): Byte {
    if a in m then m[a] else 0
  }

  predicate Mapped(m: Mem, a: Word, c: nat) {
    a in m && Wrap(a + c - 1) in m
  }

  // ---------------------------------------------------------------------------
  // Aligned units

  function LoadWord(m: Mem, a: Word): Word
    requires a % 4 == 0
  {
    Join(At(m, a), At(m, a + 1), At(m, a + 2), At(m, a + 3))
  }

  lemma WordRange(a: Word)
    requires a % 4 == 0
    ensures a + 4 <= 0x1_0000_0000
  {
    assert a == a / 4 * 4 && a / 4 < 0x4000_0000;
  }

  function LoadHalf(m: Mem, a: Word): Word
    requires a % 2 == 0
  {
    At(m, a) * 256 + At(m, a + 1)
  }

  function StoreWord(m: Mem, a: Word, v: Word): Mem
    requires a % 4 == 0
  {
    m[a := ByteOf(v, 0)][a + 1 := ByteOf(v, 1)][a + 2 := ByteOf(v, 2)][a + 3 := ByteOf(v, 3)]
  }

  function StoreHalf(m: Mem, a: Word, v: Word): Mem
    requires a % 2 == 0
  {
    m[a := ByteOf(v, 2)][a + 1 := ByteOf(v, 3)]
  }

  lemma StoreWordBytes(m: Mem, a: Word, v: Word, p: Word)
    requires a % 4 == 0
    ensures At(StoreWord(m, a, v), p) == if a <= p < a + 4 then ByteOf(v, p - a) else At(m, p)
  {
  }

  /** A stored word is read back, and every other aligned word keeps its value. */
  lemma LoadAfterStore(m: Mem, a: Word, v: Word, b: Word)
    requires a % 4 == 0 && b % 4 == 0
    ensures LoadWord(StoreWord(m, a, v), b) == if a == b then v else LoadWord(m, b)
  {
    StoreWordBytes(m, a, v, b);
    StoreWordBytes(m, a, v, b + 1);
    StoreWordBytes(m, a, v, b + 2);
    StoreWordBytes(m, a, v, b + 3);
    if a == b {
      JoinBytes(v);
    } else {
      SameBytesSameWord(m, StoreWord(m, a, v), b);
    }
  }

  lemma SameBytesSameWord(m: Mem, m': Mem, b: Word)
    requires b % 4 == 0
    requires At(m, b) == At(m', b) && At(m, b + 1) == At(m', b + 1)
    requires At(m, b + 2) == At(m', b + 2) && At(m, b + 3) == At(m', b + 3)
    ensures LoadWord(m, b) == LoadWord(m', b)
  {
  }

  // ---------------------------------------------------------------------------
  // The simulator's accesses, with their checks in the order the simulator makes them

  function Load(m: Mem, a: Word, c: nat, fetch: bool): Access
    requires c == 1 || c == 2 || c == 4
  {
    if !fetch && a / 0x100_0000 == 0xFF then Fault(Device)
    else if !Mapped(m, a, c) then Fault(AccessViolation)
    else if !fetch && a / 0x10_0000 == 0xBFC then Fault(Fatal)
    else if a % c != 0 then Fault(Fatal)
    else if c == 1 then Value(At(m, a))
    else if c == 2 then Value(LoadHalf(m, a))
    else Value(LoadWord(m, a))
  }

  function Store(m: Mem, a: Word, v: Word, c: nat): Stored
    requires c == 1 || c == 2 || c == 4
  {
    if a == 0xFF00_0000 then StoreFault(Device)
    else if !Mapped(m, a, c) then StoreFault(Fatal)
    else if a / 0x10_0000 == 0xBFC then StoreFault(Fatal)
    else if a % c != 0 then StoreFault(Fatal)
    else if c == 1 then Stored(m[a := v % 256])
    else if c == 2 then Stored(StoreHalf(m, a, v))
    else Stored(StoreWord(m, a, v))
  }

  /** What an instruction fetch reads at an aligned address: an unmapped word reads as 0. */
  function FetchWord(m: Mem, p: Word): Word
    requires p % 4 == 0
  {
    if Mapped(m, p, 4) then LoadWord(m, p) else 0
  }

  lemma LineRange(b: int)
    requires 0 <= b < 0x1_0000_0000 && b % 16 == 0
    ensures b + 16 <= 0x1_0000_0000
    ensures b % 4 == 0 && (b + 4) % 4 == 0 && (b + 8) % 4 == 0 && (b + 12) % 4 == 0
  {
    var q := b / 16;
    DivModUnique(b, 4, 4 * q, 0);
    DivModUnique(b + 4, 4, 4 * q + 1, 0);
    DivModUnique(b + 8, 4, 4 * q + 2, 0);
    DivModUnique(b + 12, 4, 4 * q + 3, 0);
  }

  function LineBase(a: Word): (b: Word)
    ensures b % 16 == 0 && b <= a < b + 16
  {
    DivModUnique(a / 16 * 16, 16, a / 16, 0);
    a / 16 * 16
  }

  /** The k-th word of the line at b. */
  function LineAddress(b: Word, k: nat): (a: Word)
    requires b % 16 == 0 && k < 4
    ensures a % 4 == 0
  {
    LineRange(b);
    b + 4 * k
  }

  lemma InLine(b: Word, d: nat)
    requires b % 16 == 0 && d < 16
    ensures LineBase(b + d) == b
  {
    LineRange(b);
    DivModUnique(b + d, 16, b / 16, d);
  }

  /** The four words of a 16-byte line. */
  datatype Line = Line(w0: Word, w1: Word, w2: Word, w3: Word) {
    function Get(k: nat): Word
      requires k < 4
    {
      if k == 0 then w0 else if k == 1 then w1 else if k == 2 then w2 else w3
    }
  }

  /** The line at b as a fetch reads it. */
  function LineWords(m: Mem, b: Word): Line
    requires b % 16 == 0
  {
    Line(FetchWord(m, LineAddress(b, 0)), FetchWord(m, LineAddress(b, 1)),
         FetchWord(m, LineAddress(b, 2)), FetchWord(m, LineAddress(b, 3)))
  }

  /** Every word of the line at b is mapped. */
  predicate LineMappedAt(m: Mem, b: Word)
    requires b % 16 == 0
  {
    Mapped(m, LineAddress(b, 0), 4) && Mapped(m, LineAddress(b, 1), 4) &&
    Mapped(m, LineAddress(b, 2), 4) && Mapped(m, LineAddress(b, 3), 4)
  }

  predicate LineMapped(m: Mem, a: Word) {
    LineMappedAt(m, LineBase(a))
  }

  /** A store writes its own bytes, and maps nothing new. */
  lemma StoreFrame(m: Mem, a: Word, v: Word, c: nat, p: Word)
    requires c == 1 || c == 2 || c == 4
    requires Store(m, a, v, c).Stored?
    ensures p in Store(m, a, v, c).mem ==> p in m || a <= p < a + c
    ensures p in m ==> p in Store(m, a, v, c).mem
    ensures !(a <= p < a + c) ==> At(Store(m, a, v, c).mem, p) == At(m, p)
  {
  }

  function WordBase(a: Word): (b: Word)
    ensures b % 4 == 0 && b <= a < b + 4
  {
    DivModUnique(a / 4 * 4, 4, a / 4, 0);
    a / 4 * 4
  }

  lemma UnitInWord(a: Word, c: nat, q: Word)
    requires c == 1 || c == 2 || c == 4
    requires a % c == 0 && a <= q < a + c
    ensures WordBase(q) == WordBase(a)
  {
    var w, r := a / 4, a % 4;
    if c == 2 {
      DivModUnique(a, 2, 2 * w + r / 2, r % 2);
    }
    assert r + (q - a) < 4;
    DivModUnique(q, 4, w, r + (q - a));
  }

  lemma StoreKeepsByte(m: Mem, a: Word, v: Word, c: nat, q: Word)
    requires c == 1 || c == 2 || c == 4
    requires Store(m, a, v, c).Stored? && WordBase(q) != WordBase(a)
    ensures At(Store(m, a, v, c).mem, q) == At(m, q)
    ensures q in Store(m, a, v, c).mem <==> q in m
  {
    hide WordBase;
    StoreFrame(m, a, v, c, q);
    if a <= q < a + c {
      UnitInWord(a, c, q);
    }
  }

  /** A store changes only the aligned word it is in, and maps nothing new. */
  lemma StoreKeepsOtherWords(m: Mem, a: Word, v: Word, c: nat, p: Word)
    requires c == 1 || c == 2 || c == 4
    requires Store(m, a, v, c).Stored?
    requires p % 4 == 0 && p != WordBase(a)
    ensures FetchWord(Store(m, a, v, c).mem, p) == FetchWord(m, p)
    ensures Mapped(Store(m, a, v, c).mem, p, 4) == Mapped(m, p, 4)
  {
    hide WordBase, Store, At, LoadWord;
    var m' := Store(m, a, v, c).mem;
    WordRange(p);
    UnitInWord(p, 4, p);
    UnitInWord(p, 4, p + 1);
    UnitInWord(p, 4, p + 2);
    UnitInWord(p, 4, p + 3);
    WordOfWord(p);
    StoreKeepsByte(m, a, v, c, p);
    StoreKeepsByte(m, a, v, c, p + 1);
    StoreKeepsByte(m, a, v, c, p + 2);
    StoreKeepsByte(m, a, v, c, p + 3);
    SameBytesSameWord(m, m', p);
  }

  lemma WordOfWord(p: Word)
    requires p % 4 == 0
    ensures WordBase(p) == p
  {
  }

  /** A memory with one word in it. */
  lemma LonelyWord(a: Word, v: Word)
    requires a % 4 == 0
    ensures FetchWord(StoreWord(map[], a, v), a) == v
    ensures forall p: Word :: p % 4 == 0 && p != a ==> FetchWord(StoreWord(map[], a, v), p) == 0
  {
    hide FetchWord, StoreWord;
    StoredWord(a, v);
    forall p: Word | p % 4 == 0 && p != a
      ensures FetchWord(StoreWord(map[], a, v), p) == 0
    {
      NothingElse(a, v, p);
    }
  }

  lemma StoredWord(a: Word, v: Word)
    requires a % 4 == 0
    ensures FetchWord(StoreWord(map[], a, v), a) == v
  {
    hide LoadWord, ByteOf;
    WordRange(a);
    LoadAfterStore(map[], a, v, a);
    assert Mapped(StoreWord(map[], a, v), a, 4) by {
      hide Wrap;
      WrapOnce(a + 3);
    }
  }

  lemma NothingElse(a: Word, v: Word, p: Word)
    requires a % 4 == 0 && p % 4 == 0 && p != a
    ensures FetchWord(StoreWord(map[], a, v), p) == 0
  {
    hide WordBase, ByteOf, LoadWord, Wrap;
    WordOfWord(a);
    WordOfWord(p);
    if a < p < a + 4 {
      UnitInWord(a, 4, p);
    }
  }
}
