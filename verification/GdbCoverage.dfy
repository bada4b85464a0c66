/** A single step of the debugger is a step of the program: it stops where the program goes next,
    with the state the program would have had. */
module GdbCoverage {
  import opened Words
  import opened Memory
  import opened Cpu
  import opened CachedRuns
  import opened DelaySlots
  import opened GdbStep
  import opened GdbTheorems
  import Exceptions

  // ---------------------------------------------------------------------------
  // The prediction

  /** The stub expects control to leave the straight line only where the processor may. The
      exceptions are SYNCI and coprocessor operations, which it takes for branches. */
  predicate Covered(i: Word) {
    IsBranch(i) || !PredictsBranch(i) || SImm(i) == 0
  }

  /** By the codes: not covered are SYNCI and the unused sign branches, the coprocessors and the
      branch-likely codes, with a nonzero immediate. */
  lemma CoveredIff(i: Word)
    ensures Covered(i) <==>
            !(Opcode(i) == 0x01 && Rt(i) !in {0x00, 0x01, 0x10, 0x11} && UImm(i) != 0) &&
            !(0x10 <= Opcode(i) <= 0x17 && UImm(i) != 0)
  {
    assert UImm(i) < 0x1_0000;
    hide Opcode, Rt, UImm, Funct;
  }

  predicate Conditional(i: Word) {
    Opcode(i) == REGIMM || BEQ <= Opcode(i) <= BGTZ
  }

  lemma RegionShifts(pc: Word)
    ensures Shl(Shr(pc, 28), 28) == pc / 0x1000_0000 * 0x1000_0000
  {
    hide Shl, Shr, Pow2, Wrap;
    Pow2Values();
    ShrIsQuotient(pc, 28);
    ShlIsProduct(pc / 0x1000_0000, 28);
    WrapOnce(pc / 0x1000_0000 * 0x1000_0000);
  }

  lemma PredictedRegion(pc: Word, o: Word)
    requires o < 0x400_0000
    ensures Or(Shl(Shr(pc, 28), 28), 4 * o) == Wrap(pc / 0x1000_0000 * 0x1000_0000 + 4 * o)
  {
    hide Bits, Pow2, Shl, Shr, Wrap;
    RegionShifts(pc);
    Pow2Values();
    var h := pc / 0x1000_0000;
    OrDisjoint(32, 28, h, 4 * o);
    WrapOnce(h * 0x1000_0000 + 4 * o);
  }

  lemma PredictsTarget(r: Regs, epc: Word, i: Word)
    requires IsBranch(i)
    ensures Predict(r, epc, i) == if Conditional(i) then MayBranch(Target(r, epc, i)) else Jumps(Target(r, epc, i))
  {
    PredictedRegion(Wrap(epc + 4), Offset(i));
    hide Wrap, Or, Shl, Shr, Offset, SImm, Rs;
  }

  /** For a branch, breakpoints are planted exactly at its target and, if it is conditional, past its
      delay slot. */
  lemma PlantsOfBranch(r: Regs, epc: Word, i: Word, p: Word)
    requires IsBranch(i)
    ensures p in Plants(r, epc, i) <==> p == Target(r, epc, i) || (Conditional(i) && p == Wrap(epc + 8))
  {
    hide Predict, Target, Wrap, IsBranch;
    PredictsTarget(r, epc, i);
  }

  lemma NextIsPlanted(r: Regs, epc: Word, i: Word)
    requires IsBranch(i)
    ensures NextPc(r, epc, i) in Plants(r, epc, i)
  {
    PlantsOfBranch(r, epc, i, NextPc(r, epc, i));
    hide Wrap, Rs, Rt, Signed, Target, Plants;
  }

  lemma OffsetIsZero(x: int, k: int)
    requires -0x8000 <= k <= 0x8000
    ensures Wrap(x + 4 * k) == Wrap(x) <==> k == 0
  {
    var w, q := x % 0x1_0000_0000, x / 0x1_0000_0000;
    if 0 <= w + 4 * k < 0x1_0000_0000 {
      DivModUnique(x + 4 * k, 0x1_0000_0000, q, w + 4 * k);
    } else if w + 4 * k < 0 {
      DivModUnique(x + 4 * k, 0x1_0000_0000, q - 1, w + 4 * k + 0x1_0000_0000);
    } else {
      DivModUnique(x + 4 * k, 0x1_0000_0000, q + 1, w + 4 * k - 0x1_0000_0000);
    }
  }

  /** For any other instruction the next address is planted exactly when the instruction is covered. */
  lemma PlantsOfPlain(r: Regs, epc: Word, i: Word)
    requires !IsBranch(i)
    ensures Wrap(epc + 4) in Plants(r, epc, i) <==> Covered(i)
  {
    OffsetIsZero(epc + 4, SImm(i));
    OffsetIsZero(epc + 4, 1);
    hide Wrap, Or, Shl, Shr, Offset, SImm, Rs, Rt, Funct, Opcode;
  }

  /** Where the simulator goes after instruction i at epc, given that it takes no exception. */
  function Successor(r: Regs, epc: Word, i: Word): Word {
    if IsBranch(i) then NextPc(r, epc, i) else Wrap(epc + 4)
  }

  /** The predictor agrees with the simulator: exactly the covered instructions go to a planted
      address. */
  lemma SuccessorIsPlanted(r: Regs, epc: Word, i: Word)
    ensures Successor(r, epc, i) in Plants(r, epc, i) <==> Covered(i)
  {
    hide Plants, NextPc, IsBranch, SImm, PredictsBranch;
    if IsBranch(i) {
      NextIsPlanted(r, epc, i);
    } else {
      PlantsOfPlain(r, epc, i);
    }
  }

  // ---------------------------------------------------------------------------
  // Memory with planted words

  /** Memory m' is m with breaks planted over the live words. */
  ghost predicate Hides(m': Mem, live: seq<Saved>, m: Mem) {
    Patchable(m', live) && BreaksAt(m', live) && PutBack(m', live) == Stored(m)
  }

  lemma {:induction false} PutBackKeepsByte(m: Mem, ps: seq<Saved>, q: Word)
    requires Patchable(m, ps) && Clear(ps, q)
    ensures PutBack(m, ps).Stored? && At(PutBack(m, ps).mem, q) == At(m, q)
    decreases |ps|
  {
    hide Store, CanPatch, WholeWords, WordBase;
    if ps != [] {
      var p := ps[0];
      CanStore(m, p.addr, p.val);
      CanPatchMeans(m, p.addr);
      StoreDomain(m, p.addr, p.val, 4);
      var m' := Store(m, p.addr, p.val, 4).mem;
      SamePatchable(m, m', ps[1..]);
      StoreKeepsByte(m, p.addr, p.val, 4, q);
      PutBackKeepsByte(m', ps[1..], q);
    }
  }

  lemma LoadAgrees(m: Mem, m': Mem, a: Word, c: nat, fetch: bool)
    requires c == 1 || c == 2 || c == 4
    requires m.Keys == m'.Keys && forall q: Word :: WordBase(q) == WordBase(a) ==> At(m, q) == At(m', q)
    ensures Load(m, a, c, fetch) == Load(m', a, c, fetch)
  {
    hide WordBase, Join, At;
    assert forall p: Word :: p in m <==> p in m';
    if a % c == 0 {
      forall q: Word | a <= q < a + c
        ensures At(m, q) == At(m', q)
      {
        UnitInWord(a, c, q);
      }
    }
    if c == 4 && a % 4 == 0 {
      WordRange(a);
      SameBytesSameWord(m, m', a);
    } else if c == 2 && a % 2 == 0 {
      HalfRange(a);
    }
  }

  lemma HalfRange(a: Word)
    requires a % 2 == 0
    ensures a + 2 <= 0x1_0000_0000
  {
  }

  lemma HiddenLoad(m': Mem, live: seq<Saved>, m: Mem, a: Word, c: nat, fetch: bool)
    requires c == 1 || c == 2 || c == 4
    requires Hides(m', live, m) && Clear(live, a)
    ensures Load(m', a, c, fetch) == Load(m, a, c, fetch)
  {
    hide WordBase, At, Load, WholeWords, CanPatch;
    PutBackWorks(m', live);
    forall q: Word | WordBase(q) == WordBase(a)
      ensures At(m, q) == At(m', q)
    {
      PutBackKeepsByte(m', live, q);
    }
    LoadAgrees(m, m', a, c, fetch);
  }

  lemma HiddenStore(m': Mem, live: seq<Saved>, m: Mem, a: Word, v: Word, c: nat)
    requires c == 1 || c == 2 || c == 4
    requires Hides(m', live, m) && Clear(live, a)
    ensures match Store(m, a, v, c)
            case StoreFault(why) => Store(m', a, v, c) == StoreFault(why)
            case Stored(m1) => Store(m', a, v, c).Stored? && Hides(Store(m', a, v, c).mem, live, m1)
  {
    hide WordBase, Store, WholeWords, CanPatch;
    PutBackWorks(m', live);
    StoreFaults(m, m', a, v, c);
    if Store(m', a, v, c).Stored? {
      PutBackCommutes(m', live, a, v, c);
      StoreDomain(m', a, v, c);
      StoreKeepsBreaks(m', live, a, v, c);
      SamePatchable(m', Store(m', a, v, c).mem, live);
    }
  }

  lemma StoreFaults(m: Mem, m': Mem, a: Word, v: Word, c: nat)
    requires c == 1 || c == 2 || c == 4
    requires m.Keys == m'.Keys
    ensures Store(m, a, v, c).StoreFault? ==> Store(m', a, v, c) == Store(m, a, v, c)
    ensures Store(m, a, v, c).Stored? == Store(m', a, v, c).Stored?
  {
    assert forall p: Word :: p in m <==> p in m';
  }

  // ---------------------------------------------------------------------------
  // Executing with planted words in memory

  ghost predicate HiddenOut(o': Out, live: seq<Saved>, o: Out) {
    match o
    case Halted(why) => o' == o
    case Done(s, wbr, wbv) =>
      o'.Done? && o'.wbr == wbr && o'.wbv == wbv && o'.s == s.(mem := o'.s.mem) && Hides(o'.s.mem, live, s.mem)
  }

  /** The instruction neither loads nor stores a planted word. */
  ghost predicate Avoids(s: Arch, i: Word, live: seq<Saved>) {
    IsLoad(Opcode(i)) || IsStore(Opcode(i)) ==> Clear(live, DataAddress(s, i))
  }

  lemma LoadHidden(s: Arch, i: Word, address: Word, b: Word, m': Mem, live: seq<Saved>)
    requires IsLoad(Opcode(i)) && Hides(m', live, s.mem) && Clear(live, address)
    ensures HiddenOut(ExecuteLoad(s.(mem := m'), i, address, b), live, ExecuteLoad(s, i, address, b))
  {
    hide Load, LoadResult, Hides, WordBase, Rt;
    WordOfWord(WordBase(address));
    HiddenLoad(m', live, s.mem, address, 1, false);
    HiddenLoad(m', live, s.mem, address, 2, false);
    HiddenLoad(m', live, s.mem, address, 4, false);
    HiddenLoad(m', live, s.mem, WordBase(address), 4, false);
  }

  lemma StoreDoneHidden(s: Arch, a: Word, v: Word, c: nat, m': Mem, live: seq<Saved>)
    requires c == 1 || c == 2 || c == 4
    requires Hides(m', live, s.mem) && Clear(live, a)
    ensures HiddenOut(StoreDone(s.(mem := m'), Store(m', a, v, c)), live, StoreDone(s, Store(s.mem, a, v, c)))
  {
    hide Store, Hides, WordBase;
    HiddenStore(m', live, s.mem, a, v, c);
  }

  lemma StoreHidden(s: Arch, i: Word, address: Word, b: Word, m': Mem, live: seq<Saved>)
    requires IsStore(Opcode(i)) && Hides(m', live, s.mem) && Clear(live, address)
    ensures HiddenOut(ExecuteStore(s.(mem := m'), i, address, b), live, ExecuteStore(s, i, address, b))
  {
    hide Load, Store, StoreDone, Hides, WordBase, HiddenOut, MergeLeft, MergeRight, LeftShift;
    var op := Opcode(i);
    if op == SB {
      StoreDoneHidden(s, address, b, 1, m', live);
    } else if op == SH {
      StoreDoneHidden(s, address, b, 2, m', live);
    } else if op == SW {
      StoreDoneHidden(s, address, b, 4, m', live);
    } else {
      var base := WordBase(address);
      WordOfWord(base);
      HiddenLoad(m', live, s.mem, base, 4, false);
      match Load(s.mem, base, 4, false)
      case Fault(why) => HaltsHidden(why, live);
      case Value(w) =>
        var v := if op == SWL then MergeRight(b, w, LeftShift(address)) else MergeLeft(b, w, 24 - LeftShift(address));
        StoreDoneHidden(s, base, v, 4, m', live);
    }
  }

  lemma HaltsHidden(why: Halt, live: seq<Saved>)
    ensures HiddenOut(Halted(why), live, Halted(why))
  {
  }

  function WithMemory(o: Out, m: Mem): Out {
    match o
    case Halted(_) => o
    case Done(s, wbr, wbv) => Done(s.(mem := m), wbr, wbv)
  }

  lemma ArithmeticIgnoresMemory(s: Arch, at: Word, slot: bool, i: Word, a: Word, b: Word, m: Mem)
    ensures Divide(s.(mem := m), i, a, b) == WithMemory(Divide(s, i, a, b), m)
    ensures DivideUnsigned(s.(mem := m), i, a, b) == WithMemory(DivideUnsigned(s, i, a, b), m)
    ensures AddTrapping(s.(mem := m), at, slot, i, a, b) == WithMemory(AddTrapping(s, at, slot, i, a, b), m)
    ensures Trap(s.(mem := m), EXC_BP, at, slot, BREAK_VECTOR) == WithMemory(Trap(s, EXC_BP, at, slot, BREAK_VECTOR), m)
  {
    hide Wrap, Signed, TakenForOverflow, TruncDiv, TruncRem, Rd;
  }

  lemma ShiftsIgnoreMemory(s: Arch, at: Word, slot: bool, i: Word, a: Word, b: Word, m: Mem)
    requires Funct(i) < MFHI
    ensures ExecuteSpecial(s.(mem := m), at, slot, i, a, b) == WithMemory(ExecuteSpecial(s, at, slot, i, a, b), m)
  {
    ArithmeticIgnoresMemory(s, at, slot, i, a, b, m);
    ArithmeticIgnoresMemory(s, at, slot, i, a, Neg(b), m);
    hide Shl, Shr, Sar, And, Or, Xor, Not, Wrap, Signed, Rd, Sa, Funct, Neg, Divide, DivideUnsigned, AddTrapping, Trap;
  }

  lemma ProductsIgnoreMemory(s: Arch, at: Word, slot: bool, i: Word, a: Word, b: Word, m: Mem)
    requires MFHI <= Funct(i) < ADD
    ensures ExecuteSpecial(s.(mem := m), at, slot, i, a, b) == WithMemory(ExecuteSpecial(s, at, slot, i, a, b), m)
  {
    ArithmeticIgnoresMemory(s, at, slot, i, a, b, m);
    ArithmeticIgnoresMemory(s, at, slot, i, a, Neg(b), m);
    hide Shl, Shr, Sar, And, Or, Xor, Not, Wrap, Signed, Rd, Sa, Funct, Neg, Divide, DivideUnsigned, AddTrapping, Trap;
  }

  lemma SumsIgnoreMemory(s: Arch, at: Word, slot: bool, i: Word, a: Word, b: Word, m: Mem)
    requires ADD <= Funct(i)
    ensures ExecuteSpecial(s.(mem := m), at, slot, i, a, b) == WithMemory(ExecuteSpecial(s, at, slot, i, a, b), m)
  {
    ArithmeticIgnoresMemory(s, at, slot, i, a, b, m);
    ArithmeticIgnoresMemory(s, at, slot, i, a, Neg(b), m);
    hide Shl, Shr, Sar, And, Or, Xor, Not, Wrap, Signed, Rd, Sa, Funct, Neg, Divide, DivideUnsigned, AddTrapping, Trap;
  }

  lemma SpecialIgnoresMemory(s: Arch, at: Word, slot: bool, i: Word, a: Word, b: Word, m: Mem)
    ensures ExecuteSpecial(s.(mem := m), at, slot, i, a, b) == WithMemory(ExecuteSpecial(s, at, slot, i, a, b), m)
  {
    hide ExecuteSpecial, WithMemory;
    if Funct(i) < MFHI {
      ShiftsIgnoreMemory(s, at, slot, i, a, b, m);
    } else if Funct(i) < ADD {
      ProductsIgnoreMemory(s, at, slot, i, a, b, m);
    } else {
      SumsIgnoreMemory(s, at, slot, i, a, b, m);
    }
  }

  lemma Cp0IgnoresMemory(s: Arch, i: Word, b: Word, m: Mem)
    ensures ExecuteCp0(s.(mem := m), i, b) == WithMemory(ExecuteCp0(s, i, b), m)
  {
    hide Rs, Rt, Rd, Funct;
  }

  lemma FewIgnoreMemory(s: Arch, i: Word, a: Word, m: Mem)
    ensures ExecuteRegimm(s.(mem := m), i, a) == WithMemory(ExecuteRegimm(s, i, a), m)
    ensures ExecuteCp2(s.(mem := m), i) == WithMemory(ExecuteCp2(s, i), m)
    ensures ExecuteRdhwr(s.(mem := m), i) == WithMemory(ExecuteRdhwr(s, i), m)
  {
    hide Wrap, Signed, Rs, Rt, Rd, Funct, SImm;
  }

  /** An instruction that neither loads nor stores does not look at memory. */
  lemma IgnoresMemory(s: Arch, at: Word, slot: bool, i: Word, a: Word, b: Word, probe: Word, m: Mem)
    requires !IsLoad(Opcode(i)) && !IsStore(Opcode(i))
    ensures Execute(s.(mem := m), at, slot, i, a, b, probe) == WithMemory(Execute(s, at, slot, i, a, b, probe), m)
  {
    SpecialIgnoresMemory(s, at, slot, i, a, b, m);
    FewIgnoreMemory(s, i, a, m);
    Cp0IgnoresMemory(s, i, b, m);
    hide And, Or, Xor, Wrap, Signed, Rt, UImm, SImm, RegionTarget, BranchTarget, Opcode;
    hide ExecuteSpecial, ExecuteRegimm, ExecuteCp0, ExecuteCp2, ExecuteRdhwr;
  }

  lemma OthersHidden(s: Arch, at: Word, slot: bool, i: Word, a: Word, b: Word, probe: Word, m': Mem, live: seq<Saved>)
    requires !IsLoad(Opcode(i)) && !IsStore(Opcode(i)) && Hides(m', live, s.mem)
    ensures HiddenOut(Execute(s.(mem := m'), at, slot, i, a, b, probe), live, Execute(s, at, slot, i, a, b, probe))
  {
    hide Execute, Hides;
    IgnoresMemory(s, at, slot, i, a, b, probe, m');
    if Execute(s, at, slot, i, a, b, probe).Done? {
      OthersKeepMemory(s, at, slot, i, a, b, probe);
    }
  }

  ghost predicate HiddenResult(r': Result, live: seq<Saved>, r: Result) {
    match r
    case Stop(why) => r' == r
    case Go(s) => r'.Go? && r'.s == s.(mem := r'.s.mem) && Hides(r'.s.mem, live, s.mem)
  }

  /** An instruction that avoids the planted words does the same with them in memory. */
  lemma ExecHidden(s: Arch, i: Word, probe: Word, m': Mem, live: seq<Saved>)
    requires Hides(m', live, s.mem) && Avoids(s, i, live)
    ensures HiddenResult(Exec(s.(mem := m'), i, probe), live, Exec(s, i, probe))
  {
    hide Hides, Clear, ExecuteSpecial, ExecuteRegimm, ExecuteCp0, ExecuteCp2, ExecuteRdhwr, ExecuteLoad, ExecuteStore;
    hide OperandS, OperandT, Wrap, SImm, Signed, UImm, And, Or, Xor, Branch, Jump;
    var n, a, b := Advance(s), OperandS(s.r, i), OperandT(s.r, i);
    assert Advance(s.(mem := m')) == n.(mem := m');
    if IsLoad(Opcode(i)) {
      LoadHidden(n, i, DataAddress(s, i), b, m', live);
    } else if IsStore(Opcode(i)) {
      StoreHidden(n, i, DataAddress(s, i), b, m', live);
    } else {
      OthersHidden(n, s.pc, s.delay, i, a, b, probe, m', live);
    }
  }

  // ---------------------------------------------------------------------------
  // Running with planted words in memory

  /** The turn fetches, loads and stores no planted word. */
  ghost predicate AvoidsStep(s: Arch, live: seq<Saved>) {
    (!s.annul ==> Clear(live, s.pc) && (Probes(Instruction(s)) ==> Clear(live, ProbeAddress(s)))) &&
    Avoids(s, Instruction(s), live)
  }

  ghost predicate AvoidsRun(n: nat, s: Arch, live: seq<Saved>) {
    n == 0 || (AvoidsStep(s, live) && (StepDirect(s).Go? ==> AvoidsRun(n - 1, StepDirect(s).s, live)))
  }

  lemma FetchHidden(s: Arch, m': Mem, live: seq<Saved>)
    requires Hides(m', live, s.mem) && AvoidsStep(s, live)
    ensures FetchDirect(s.(mem := m')) == FetchDirect(s)
    ensures FetchDirect(s).Ready? ==> FetchDirect(s).i == Instruction(s)
  {
    hide Hides, Clear, Load, Probes, ProbeAddress, Avoids;
    if !s.annul {
      HiddenLoad(m', live, s.mem, s.pc, 4, true);
      if Probes(Instruction(s)) {
        HiddenLoad(m', live, s.mem, ProbeAddress(s), 4, true);
      }
      SameProbe(s, m');
    }
  }

  lemma SameProbe(s: Arch, m': Mem)
    ensures ProbeAddress(s.(mem := m')) == ProbeAddress(s)
  {
  }

  /** A run that does not touch the planted words goes the same way with them in memory. */
  lemma {:induction false} RunHidden(n: nat, s: Arch, m': Mem, live: seq<Saved>)
    requires Hides(m', live, s.mem) && AvoidsRun(n, s, live)
    ensures HiddenResult(RunDirect(n, s.(mem := m')), live, RunDirect(n, s))
  {
    hide Hides, FetchDirect, Exec, Avoids, Instruction;
    if n == 0 {
      assert s.(mem := m') == RunDirect(0, s.(mem := m')).s;
    } else {
      FetchHidden(s, m', live);
      if FetchDirect(s).Ready? {
        ExecHidden(s, FetchDirect(s).i, FetchDirect(s).probe, m', live);
        if StepDirect(s).Go? {
          var s1 := StepDirect(s).s;
          RunHidden(n - 1, s1, StepDirect(s.(mem := m')).s.mem, live);
        }
      }
    }
  }

  // ---------------------------------------------------------------------------
  // A single step

  /** The stub has planted breakpoints for a step from s, with every slot free before. */
  ghost predicate Steps(st0: Stub, s: Arch, i: Word, st: Stub) {
    WholeWords(s.mem) && AllFree(st0) && st0.mem == s.mem && Load(s.mem, s.pc, 4, false) == Value(i) &&
    0 !in Plants(s.r, s.pc, i) && SingleStep(st0, s.r, s.pc) == Fine(st)
  }

  lemma StepsHides(st0: Stub, s: Arch, i: Word, st: Stub)
    requires Steps(st0, s, i, st)
    ensures GdbStep.Ready(st) && Hides(st.mem, Live(st), s.mem)
    ensures forall p :: p in Plants(s.r, s.pc, i) <==> exists k :: 0 <= k < |Live(st)| && Live(st)[k].addr == p
  {
    hide WholeWords, CanPatch, Plants, PutBack, Hoist, LoadWord;
    var ps := Plants(s.r, s.pc, i);
    PlantUndone(st0, ps);
    UndoWorks(st);
    HoistMeans(s.mem, ps[0]);
    assert ps[0] in ps;
    if |ps| == 2 {
      HoistMeans(Hoist(s.mem, ps[0]).mem, ps[1]);
      assert ps[1] in ps;
      assert ps == [ps[0], ps[1]];
      assert Live(st)[0].addr == ps[0] && Live(st)[1].addr == ps[1];
    } else {
      assert ps == [ps[0]];
      assert Live(st)[0].addr == ps[0];
    }
  }

  /** The turns of one instruction: a branch takes its delay slot along. */
  function Turns(i: Word): nat {
    if IsBranch(i) then 2 else 1
  }

  /** The program without a debugger executes one instruction, with a delay slot that is not a
      branch, and takes no exception. */
  ghost predicate PlainStep(s: Arch, i: Word, s2: Arch) {
    Settled(s) && Sequential(s) && !BranchInSlot(s) && Load(s.mem, s.pc, 4, true) == Value(i) &&
    RunDirect(Turns(i), s) == Go(s2) && !s2.annul
  }

  lemma StraightGoes(s: Arch, i: Word, s2: Arch)
    requires PlainStep(s, i, s2) && !IsBranch(i)
    ensures Settled(s2) && Sequential(s2) && s2.pc == Wrap(s.pc + 4)
  {
    hide Exec, Load, IsBranch, BranchInSlot, Probes;
    ProbedIsBranch(i);
    RunOne(s);
    PlainTurn(s, i, s.pcNext);
    assert s.(pcNext := s.pcNext) == s;
  }

  lemma BranchGoes(s: Arch, i: Word, s2: Arch)
    requires PlainStep(s, i, s2) && IsBranch(i) && !Probes(i)
    ensures Settled(s2) && Sequential(s2) && s2.pc == NextPc(s.r, s.pc, i)
  {
    hide Exec, IsBranch, Linked, NextPc, Probes, Load;
    assert StepDirect(s) == Exec(s, i, 0);
    BranchTurn(s, i, 0);
    var s1 := StepDirect(s).s;
    RunOneMore(1, s);
    RunOne(s1);
    match Load(s1.mem, s1.pc, 4, true)
    case Fault(_) =>
    case Value(j) =>
      ProbedIsBranch(j);
      BranchExecutesSlotThenTarget(s, i, s1, j, s2);
  }

  /** The branch to itself plants a break on itself. */
  lemma ProbedPlantsItself(r: Regs, epc: Word, i: Word)
    requires Probes(i)
    ensures epc in Plants(r, epc, i)
  {
    assert Opcode(ENDLESS_LOOP) == BEQ && SImm(ENDLESS_LOOP) == -1;
    WrapOnce(epc);
    assert IsBranch(i);
    PlantsOfBranch(r, epc, i, epc);
  }

  lemma PlainGoes(s: Arch, i: Word, s2: Arch)
    requires PlainStep(s, i, s2) && !Probes(i)
    ensures Settled(s2) && Sequential(s2) && s2.pc == Successor(s.r, s.pc, i)
  {
    hide PlainStep, NextPc, Probes, Sequential;
    if IsBranch(i) {
      BranchGoes(s, i, s2);
    } else {
      StraightGoes(s, i, s2);
    }
  }

  /** At a planted word the processor enters the handler, which puts the memory back. */
  lemma PlantedStops(st: Stub, s: Arch, m: Mem)
    requires GdbStep.Ready(st) && Hides(st.mem, Live(st), m) && st.mem == s.mem
    requires Settled(s) && Sequential(s) && Planted(st, s.pc) && s.pc % 4 == 0
    ensures RunDirect(2, s) == Go(Exceptions.Interrupted(s, s.pc, false))
    ensures Undo(st).Fine? && Undo(st).s.mem == m
  {
    hide Exec, IsBranch, RunDirect, WholeWords, PutBack, CanPatch, LoadWord, MacroStep, BranchInSlot;
    WordOfWord(s.pc);
    var k :| 0 <= k < |Live(st)| && Live(st)[k].addr == s.pc;
    CanPatchMeans(st.mem, s.pc);
    UndoWorks(st);
    BreakWord();
    Exceptions.BreakMacro(s, BP);
    Exceptions.PlainStart(s, BP);
    MacroRefines(s);
  }

  lemma BreakWord()
    ensures Exceptions.IsBreak(BP)
  {
  }

  lemma AvoidsItself(st0: Stub, s: Arch, i: Word, st: Stub)
    requires Steps(st0, s, i, st) && AvoidsStep(s, Live(st)) && Settled(s)
    ensures !Probes(i) && Load(s.mem, s.pc, 4, true) == Value(i)
  {
    hide WholeWords, CanPatch, Plants, PutBack, SingleStep, LoadWord, Avoids, ProbeAddress, Instruction;
    StepsHides(st0, s, i, st);
    FetchableToo(s.mem, s.pc);
    WordOfWord(s.pc);
    if Probes(i) {
      ProbedPlantsItself(s.r, s.pc, i);
    }
  }

  lemma FetchableToo(m: Mem, a: Word)
    requires Load(m, a, 4, false).Value?
    ensures Load(m, a, 4, true) == Load(m, a, 4, false) && a % 4 == 0
  {
  }

  /** What stopping at a planted word amounts to: the handler is entered with the program's own
      registers, and restores the program's own memory. */
  ghost predicate StopsAt(st: Stub, s2: Arch, u: Result) {
    u.Go? && u.s == Exceptions.Interrupted(s2.(mem := u.s.mem), s2.pc, false) &&
    Undo(st.(mem := u.s.mem)).Fine? && Undo(st.(mem := u.s.mem)).s.mem == s2.mem
  }

  lemma HiddenRunStops(st: Stub, s: Arch, n: nat, s2: Arch)
    requires GdbStep.Ready(st) && Hides(st.mem, Live(st), s.mem) && AvoidsRun(n, s, Live(st))
    requires RunDirect(n, s) == Go(s2) && Settled(s2) && Sequential(s2)
    requires exists k :: 0 <= k < |Live(st)| && Live(st)[k].addr == s2.pc
    ensures StopsAt(st, s2, RunDirect(n + 2, s.(mem := st.mem)))
  {
    hide RunDirect, Undo, AvoidsRun, WholeWords, PutBack, CanPatch, LoadWord, WordBase;
    var s' := s.(mem := st.mem);
    RunHidden(n, s, st.mem, Live(st));
    var s2' := RunDirect(n, s').s;
    var st2 := st.(mem := s2'.mem);
    assert Live(st2) == Live(st);
    RunSplits(n, 2, s');
    PlantedAligned(st2, s2.pc);
    PlantedStops(st2, s2', s2.mem);
  }

  /** A single step under the debugger, for a program that does not touch the planted words in it:
      the next instruction is planted exactly when the stepped one is covered, and then the program
      stops there. */
  lemma SingleStepIsOneStep(st0: Stub, s: Arch, i: Word, st: Stub, s2: Arch)
    requires Steps(st0, s, i, st) && PlainStep(s, i, s2) && AvoidsRun(Turns(i), s, Live(st))
    ensures s2.pc in Plants(s.r, s.pc, i) <==> Covered(i)
    ensures Covered(i) ==> StopsAt(st, s2, RunDirect(Turns(i) + 2, s.(mem := st.mem)))
  {
    hide Steps, Plants, Covered, RunDirect, AvoidsStep, Sequential, StopsAt, Hides, GdbStep.Ready;
    hide Load, Probes, Live, AvoidsRun, BranchInSlot, Successor;
    FirstAvoided(Turns(i), s, Live(st));
    StepsHides(st0, s, i, st);
    AvoidsItself(st0, s, i, st);
    PlainGoes(s, i, s2);
    SuccessorIsPlanted(s.r, s.pc, i);
    if Covered(i) {
      HiddenRunStops(st, s, Turns(i), s2);
    }
  }

  lemma FirstAvoided(n: nat, s: Arch, live: seq<Saved>)
    requires n > 0 && AvoidsRun(n, s, live)
    ensures AvoidsStep(s, live)
  {
  }

  lemma PlantedAligned(st: Stub, a: Word)
    requires BreaksAt(st.mem, Live(st)) && exists k :: 0 <= k < |Live(st)| && Live(st)[k].addr == a
    ensures a % 4 == 0 && Planted(st, a)
  {
    var k :| 0 <= k < |Live(st)| && Live(st)[k].addr == a;
    CanPatchMeans(st.mem, a);
    hide CanPatch, WordBase;
  }

  /** A branch to itself is planted over: the program stops where it is. */
  lemma SelfBranchStaysPut(st0: Stub, s: Arch, i: Word, st: Stub)
    requires Steps(st0, s, i, st) && Settled(s) && Sequential(s) && s.pc in Plants(s.r, s.pc, i)
    ensures StopsAt(st, s, RunDirect(2, s.(mem := st.mem)))
  {
    hide Steps, Plants, Sequential, StopsAt, Hides, GdbStep.Ready, RunDirect;
    StepsHides(st0, s, i, st);
    assert AvoidsRun(0, s, Live(st));
    assert RunDirect(0, s) == Go(s) by {
      NoTurns(s);
    }
    HiddenRunStops(st, s, 0, s);
  }

  lemma NoTurns(s: Arch)
    ensures RunDirect(0, s) == Go(s)
  {
  }

  /** A branch to its own delay slot has the slot planted over: it stops at the branch again, whose
      link is already written. */
  lemma SlotBranchStaysPut(st0: Stub, s: Arch, i: Word, st: Stub)
    requires Steps(st0, s, i, st) && Settled(s) && Sequential(s) && IsBranch(i)
    requires Clear(Live(st), s.pc) && Wrap(s.pc + 4) in Plants(s.r, s.pc, i)
    ensures RunDirect(3, s.(mem := st.mem)) ==
            Go(Exceptions.Interrupted(s.(r := Linked(s.r, s.pc, i), mem := st.mem), s.pc, true))
  {
    hide Plants, Hides, GdbStep.Ready, RunDirect, Linked, IsBranch, MacroStep, SingleStep, WholeWords;
    hide Load, WordBase, Avoids, CanPatch;
    StepsHides(st0, s, i, st);
    var s' := s.(mem := st.mem);
    HiddenLoad(st.mem, Live(st), s.mem, s.pc, 4, true);
    FetchableToo(s.mem, s.pc);
    NotOnItself(st0, s, i, st);
    SlotHoldsBreak(st, s.pc);
    BreakWord();
    Exceptions.SlotBreakMacro(s', i, BP);
    Exceptions.SlotStart(s', i, BP);
    MacroRefines(s');
  }

  lemma NotOnItself(st0: Stub, s: Arch, i: Word, st: Stub)
    requires Steps(st0, s, i, st) && Clear(Live(st), s.pc)
    ensures !Probes(i)
  {
    hide Hides, SingleStep, WholeWords, Plants, GdbStep.Ready;
    StepsHides(st0, s, i, st);
    FetchableToo(s.mem, s.pc);
    WordOfWord(s.pc);
    if Probes(i) {
      ProbedPlantsItself(s.r, s.pc, i);
    }
  }

  lemma SlotHoldsBreak(st: Stub, a: Word)
    requires GdbStep.Ready(st) && exists k :: 0 <= k < |Live(st)| && Live(st)[k].addr == Wrap(a + 4)
    ensures Load(st.mem, Wrap(a + 4), 4, true) == Value(BP)
  {
    hide WholeWords, Wrap, LoadWord;
    var k :| 0 <= k < |Live(st)| && Live(st)[k].addr == Wrap(a + 4);
    CanPatchMeans(st.mem, Wrap(a + 4));
  }
}
