/** The loads and stores, by their codes: which addresses they stop on, and which bytes they move. */
module MemoryInstructions {
  import opened Words
  import opened Memory
  import opened Cpu
  import opened Encoding
  import opened InstructionSet
  import Arithmetic
  import Unaligned

  /** The address is the base register plus the signed offset. */
  function AddressOf(s: Arch, base: RegNo, offset: Half): Word {
    (s.r[base] + if offset < 0x8000 then offset else offset - 0x1_0000) % 0x1_0000_0000
  }

  // ---------------------------------------------------------------------------
  // Which accesses stop

  /** Loads stop on the device page, outside memory, on the boot PROM and when they are not aligned,
      in this order. */
  function LoadStops(m: Mem, a: Word, c: nat): (why: seq<Halt>)
    requires c == 1 || c == 2 || c == 4
    ensures |why| <= 1
  {
    if a >= 0xFF00_0000 then [Device]
    else if a !in m || (a + c - 1) % 0x1_0000_0000 !in m then [AccessViolation]
    else if 0xBFC0_0000 <= a < 0xBFD0_0000 || a % c != 0 then [Fatal]
    else []
  }

  /** Stores stop on the serial output, and on the same addresses but for the rest of its page. */
  function StoreStops(m: Mem, a: Word, c: nat): (why: seq<Halt>)
    requires c == 1 || c == 2 || c == 4
    ensures |why| <= 1
  {
    if a == 0xFF00_0000 then [Device]
    else if a !in m || (a + c - 1) % 0x1_0000_0000 !in m then [Fatal]
    else if 0xBFC0_0000 <= a < 0xBFD0_0000 || a % c != 0 then [Fatal]
    else []
  }

  /** The number of the c bytes at a, most significant first. */
  function BigEndian(m: Mem, a: Word, c: nat): nat
    requires (c == 1 || c == 2 || c == 4) && a % c == 0
  {
    if c == 1 then At(m, a)
    else if c == 2 then At(m, a) * 0x100 + At(m, a + 1)
    else WordRange(a); At(m, a) * 0x100_0000 + At(m, a + 1) * 0x1_0000 + At(m, a + 2) * 0x100 + At(m, a + 3)
  }

  lemma PageOf(a: Word)
    ensures a / 0x100_0000 == 0xFF <==> a >= 0xFF00_0000
    ensures a / 0x10_0000 == 0xBFC <==> 0xBFC0_0000 <= a < 0xBFD0_0000
  {
  }

  lemma WhatLoads(m: Mem, a: Word, c: nat)
    requires c == 1 || c == 2 || c == 4
    ensures var stops := LoadStops(m, a, c);
            if stops == [] then Load(m, a, c, false).Value? && Load(m, a, c, false).w == BigEndian(m, a, c)
            else Load(m, a, c, false) == Fault(stops[0])
  {
    PageOf(a);
    if a % 4 == 0 {
      JoinIs(At(m, a), At(m, a + 1), At(m, a + 2), At(m, a + 3));
    }
    hide Join;
  }

  /** A fetch stops outside memory and on an unaligned address, and reads the PROM. */
  lemma WhatFetches(m: Mem, a: Word)
    ensures Load(m, a, 4, true) ==
            if a !in m || (a + 3) % 0x1_0000_0000 !in m then Fault(AccessViolation)
            else if a % 4 != 0 then Fault(Fatal)
            else Value(LoadWord(m, a))
    ensures a % 4 == 0 ==> LoadWord(m, a) == BigEndian(m, a, 4)
  {
    if a % 4 == 0 {
      JoinIs(At(m, a), At(m, a + 1), At(m, a + 2), At(m, a + 3));
    }
    hide Join;
  }

  /** The byte at p of the c low bytes of v stored at a. */
  function StoredByte(v: Word, a: Word, c: nat, p: Word): Byte
    requires c == 1 || c == 2 || c == 4
    requires a <= p < a + c
  {
    var k := a + c - 1 - p;
    if k == 0 then v % 0x100 else if k == 1 then v / 0x100 % 0x100
    else if k == 2 then v / 0x1_0000 % 0x100 else v / 0x100_0000
  }

  lemma BytesAre(v: Word)
    ensures ByteOf(v, 0) == v / 0x100_0000 && ByteOf(v, 1) == v / 0x1_0000 % 0x100
    ensures ByteOf(v, 2) == v / 0x100 % 0x100 && ByteOf(v, 3) == v % 0x100
  {
    var v1, r1 := v / 256, v % 256;
    var v2, r2 := v1 / 256, v1 % 256;
    var v3, r3 := v2 / 256, v2 % 256;
    DivModUnique(v, 0x1_0000, v2, r2 * 256 + r1);
    DivModUnique(v, 0x100_0000, v3, r3 * 0x1_0000 + r2 * 256 + r1);
  }

  lemma WhatStores(m: Mem, a: Word, v: Word, c: nat)
    requires c == 1 || c == 2 || c == 4
    ensures var stops := StoreStops(m, a, c);
            match Store(m, a, v, c)
            case StoreFault(why) => stops == [why]
            case Stored(m') =>
              stops == [] && forall p: Word :: At(m', p) == if a <= p < a + c then StoredByte(v, a, c, p) else At(m, p)
  {
    PageOf(a);
    BytesAre(v);
    hide ByteOf;
  }

  // ---------------------------------------------------------------------------
  // Loads

  datatype LoadOp = LoadByte | LoadHalfword | LoadWholeWord | LoadByteUnsigned | LoadHalfwordUnsigned

  function LoadCode(op: LoadOp): nat {
    match op
    case LoadByte => 0x20
    case LoadHalfword => 0x21
    case LoadWholeWord => 0x23
    case LoadByteUnsigned => 0x24
    case LoadHalfwordUnsigned => 0x25
  }

  function LoadSize(op: LoadOp): (c: nat)
    ensures c == 1 || c == 2 || c == 4
  {
    match op
    case LoadByte => 1
    case LoadByteUnsigned => 1
    case LoadHalfword => 2
    case LoadHalfwordUnsigned => 2
    case LoadWholeWord => 4
  }

  /** The register holds the number read; for the signed loads its two's complement value is that of
      the byte or halfword. */
  predicate LoadedValue(op: LoadOp, x: nat, v: Word) {
    match op
    case LoadByte => Signed(v) == if x < 0x80 then x else x - 0x100
    case LoadHalfword => Signed(v) == if x < 0x8000 then x else x - 0x1_0000
    case _ => v == x
  }

  lemma AddressIs(s: Arch, op: int, base: RegNo, rt: RegNo, offset: Half)
    requires 0x20 <= op <= 0x2B || op == 0x2E
    ensures DataAddress(s, IFormat(op, base, rt, offset)) == AddressOf(s, base, offset)
  {
    ImmediateFields(op, base, rt, offset);
    hide IFormat, Opcode, Rs, Rt, UImm;
  }

  lemma SignedValues(op: LoadOp, x: Word, address: Word, b: Word)
    requires x < if LoadSize(op) == 1 then 0x100 else if LoadSize(op) == 2 then 0x1_0000 else 0x1_0000_0000
    ensures LoadedValue(op, x, LoadResult(LoadCode(op), x, address, b))
  {
    Arithmetic.SignedOfWrap(if x < 0x8000_0000 then x - 0x1_0000 else 0);
    Arithmetic.SignedOfWrap(if x < 0x8000_0000 then x - 0x100 else 0);
    hide Wrap, MergeLeft, MergeRight;
  }

  lemma BigEndianRange(m: Mem, a: Word, c: nat)
    requires (c == 1 || c == 2 || c == 4) && a % c == 0
    ensures BigEndian(m, a, c) < if c == 1 then 0x100 else if c == 2 then 0x1_0000 else 0x1_0000_0000
  {
  }

  lemma LoadExecutes(s: Arch, i: Word, op: LoadOp, address: Word, b: Word)
    requires Opcode(i) == LoadCode(op)
    ensures ExecuteLoad(s, i, address, b) ==
            match Load(s.mem, address, LoadSize(op), false)
            case Value(w) => Done(s, Rt(i), LoadResult(LoadCode(op), w, address, b))
            case Fault(why) => Halted(why)
  {
    hide Load, LoadResult, Opcode, Rt;
  }

  /** Every load leaves the number at its address in rt, or stops. */
  lemma Loads(s: Arch, op: LoadOp, base: RegNo, rt: RegNo, offset: Half) returns (v: Word)
    ensures var a := AddressOf(s, base, offset);
            var stops := LoadStops(s.mem, a, LoadSize(op));
            var r := Exec(s, IFormat(LoadCode(op), base, rt, offset), 0);
            if stops == [] then LoadedValue(op, BigEndian(s.mem, a, LoadSize(op)), v) && r == Go(Next(s, rt, v))
            else r == Stop(stops[0])
  {
    var i, a := IFormat(LoadCode(op), base, rt, offset), AddressOf(s, base, offset);
    ImmediateFields(LoadCode(op), base, rt, offset);
    AddressIs(s, LoadCode(op), base, rt, offset);
    var b := OperandT(s.r, i);
    MemoryExec(s, i, 0);
    hide IFormat, Opcode, AddressOf, OperandT, DataAddress, Load, LoadResult, Exec, ExecuteLoad, BigEndian, LoadedValue;
    hide LoadStops, Rt;
    LoadExecutes(Advance(s), i, op, a, b);
    WhatLoads(s.mem, a, LoadSize(op));
    v := 0;
    if LoadStops(s.mem, a, LoadSize(op)) == [] {
      LoadAligned(s.mem, a, LoadSize(op));
      BigEndianRange(s.mem, a, LoadSize(op));
      var w := Load(s.mem, a, LoadSize(op), false).w;
      SignedValues(op, w, a, b);
      v := LoadResult(LoadCode(op), w, a, b);
    }
  }

  lemma LoadAligned(m: Mem, a: Word, c: nat)
    requires c == 1 || c == 2 || c == 4
    ensures LoadStops(m, a, c) == [] || StoreStops(m, a, c) == [] ==> a % c == 0
  {
  }

  // ---------------------------------------------------------------------------
  // Stores

  datatype StoreOp = StoreByte | StoreHalfword | StoreWholeWord

  function StoreCode(op: StoreOp): nat {
    match op
    case StoreByte => 0x28
    case StoreHalfword => 0x29
    case StoreWholeWord => 0x2B
  }

  function StoreSize(op: StoreOp): (c: nat)
    ensures c == 1 || c == 2 || c == 4
  {
    match op
    case StoreByte => 1
    case StoreHalfword => 2
    case StoreWholeWord => 4
  }

  /** Every store writes the low bytes of rt at its address and no other byte, or stops. */
  lemma Stores(s: Arch, op: StoreOp, base: RegNo, rt: RegNo, offset: Half) returns (m: Mem)
    ensures var a, c := AddressOf(s, base, offset), StoreSize(op);
            var stops := StoreStops(s.mem, a, c);
            var r := Exec(s, IFormat(StoreCode(op), base, rt, offset), 0);
            if stops == [] then
              r == Go(Next(s, 0, 0).(mem := m)) &&
              forall p: Word :: At(m, p) == if a <= p < a + c then StoredByte(s.r[rt], a, c, p) else At(s.mem, p)
            else r == Stop(stops[0])
  {
    var i, a := IFormat(StoreCode(op), base, rt, offset), AddressOf(s, base, offset);
    ImmediateFields(StoreCode(op), base, rt, offset);
    AddressIs(s, StoreCode(op), base, rt, offset);
    MemoryExec(s, i, 0);
    assert OperandT(s.r, i) == s.r[rt];
    hide IFormat, Opcode, AddressOf, OperandT, DataAddress, Store, Exec, StoredByte, StoreStops, Rt;
    WhatStores(s.mem, a, s.r[rt], StoreSize(op));
    m := s.mem;
    if StoreStops(s.mem, a, StoreSize(op)) == [] {
      m := Store(s.mem, a, s.r[rt], StoreSize(op)).mem;
    }
  }

  // ---------------------------------------------------------------------------
  // Unaligned pairs

  /** Three bytes on, the offset has the same sign. */
  predicate Before(offset: Half) {
    offset + 3 < 0x8000 || 0x8000 <= offset < 0xFFFD
  }

  lemma ThreeOn(left: int, right: int, base: RegNo, rt: RegNo, offset: Half)
    requires 0 <= left < 64 && 0 <= right < 64 && Before(offset)
    ensures var i, j := IFormat(left, base, rt, offset), IFormat(right, base, rt, offset + 3);
            Opcode(i) == left && Opcode(j) == right && Rs(i) == Rs(j) == base && Rt(i) == Rt(j) == rt &&
            SImm(j) == SImm(i) + 3
  {
    ImmediateFields(left, base, rt, offset);
    ImmediateFields(right, base, rt, offset + 3);
    hide IFormat, Opcode, Rs, Rt, UImm;
  }

  function FourBytes(m: Mem, a: Word): Word
    requires a + 3 < 0x1_0000_0000
  {
    At(m, a) * 0x100_0000 + At(m, a + 1) * 0x1_0000 + At(m, a + 2) * 0x100 + At(m, a + 3)
  }

  lemma FourBytesAre(m: Mem, a: Word)
    requires a + 3 < 0x1_0000_0000
    ensures Unaligned.UnalignedWord(m, a) == FourBytes(m, a)
  {
    hide Join;
    JoinIs(At(m, a), At(m, a + 1), At(m, a + 2), At(m, a + 3));
  }

  /** LWL at an address and LWR three bytes on read the four bytes from there on. */
  lemma UnalignedLoad(s: Arch, base: RegNo, rt: RegNo, offset: Half, s1: Arch, s2: Arch)
    requires rt != 0 && rt != base && Before(offset)
    requires Exec(s, IFormat(0x22, base, rt, offset), 0) == Go(s1)
    requires Exec(s1, IFormat(0x26, base, rt, offset + 3), 0) == Go(s2)
    ensures var a := AddressOf(s, base, offset);
            a + 3 < 0x1_0000_0000 && s2.r == s.r[rt := FourBytes(s.mem, a)]
  {
    var i, j := IFormat(0x22, base, rt, offset), IFormat(0x26, base, rt, offset + 3);
    hide IFormat, Exec, Opcode, Rs, Rt, SImm, Join, AddressOf, DataAddress;
    ThreeOn(0x22, 0x26, base, rt, offset);
    AddressIs(s, 0x22, base, rt, offset);
    hide Unaligned.UnalignedWord, FourBytes;
    Unaligned.LoadPairStep(s, i, j, s1, s2);
    FourBytesAre(s.mem, AddressOf(s, base, offset));
  }

  /** SWL and SWR write the four bytes of rt from there on, and no other. */
  lemma UnalignedStore(s: Arch, base: RegNo, rt: RegNo, offset: Half, s1: Arch, s2: Arch, p: Word)
    requires Before(offset)
    requires Exec(s, IFormat(0x2A, base, rt, offset), 0) == Go(s1)
    requires Exec(s1, IFormat(0x2E, base, rt, offset + 3), 0) == Go(s2)
    ensures var a := AddressOf(s, base, offset);
            s2.r == s.r && At(s2.mem, p) == if a <= p < a + 4 then StoredByte(s.r[rt], a, 4, p) else At(s.mem, p)
  {
    var i, j := IFormat(0x2A, base, rt, offset), IFormat(0x2E, base, rt, offset + 3);
    hide IFormat, Exec, Opcode, Rs, Rt, SImm, AddressOf, DataAddress;
    ThreeOn(0x2A, 0x2E, base, rt, offset);
    AddressIs(s, 0x2A, base, rt, offset);
    Unaligned.StorePairStep(s, i, j, s1, s2, p);
    BytesAre(s.r[rt]);
    hide ByteOf;
  }
}
