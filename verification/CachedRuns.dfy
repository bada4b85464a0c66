/** The processor with its instruction cache, against the processor that fetches from memory. */
module CachedRuns {
  import opened Words
  import opened Memory
  import opened ICache
  import opened CacheTheorems
  import opened Cpu

  // ---------------------------------------------------------------------------
  // Fetching straight from memory

  /** What the fetches of a step yield: the instruction, and the probed word when there is one. */
  datatype Phase = Ready(i: Word, probe: Word) | NotReady(why: Halt)

  function FetchDirect(s: Arch): Phase {
    if s.annul then Ready(0, 0)
    else
      match Load(s.mem, s.pc, 4, true)
      case Fault(why) => NotReady(why)
      case Value(i) =>
        if !Probes(i) then Ready(i, 0)
        else
          match Load(s.mem, ProbeAddress(s), 4, true)
          case Fault(why) => NotReady(why)
          case Value(probe) => Ready(i, probe)
  }

  function StepDirect(s: Arch): Result {
    match FetchDirect(s)
    case NotReady(why) => Stop(why)
    case Ready(i, probe) => Exec(s, i, probe)
  }

  function RunDirect(n: nat, s: Arch): Result {
    if n == 0 then Go(s)
    else
      match StepDirect(s)
      case Stop(why) => Stop(why)
      case Go(s') => RunDirect(n - 1, s')
  }

  // ---------------------------------------------------------------------------
  // Fetching through the cache

  datatype CachedResult = CachedGo(s: Arch, c: Cache) | CachedStop(why: Halt)

  function Architectural(r: CachedResult): Result {
    match r
    case CachedGo(s, _) => Go(s)
    case CachedStop(why) => Stop(why)
  }

  /** Executes a fetched instruction; SYNCI also invalidates a line. */
  function Finish(s: Arch, c: Cache, i: Word, probe: Word): CachedResult
    requires Shaped(c)
  {
    match Exec(s, i, probe)
    case Stop(why) => CachedStop(why)
    case Go(s') => CachedGo(s', if IsSynci(i) then Synci(c, DataAddress(s, i)) else c)
  }

  function FetchCached(s: Arch, c: Cache): Phase
    requires Shaped(c)
  {
    if s.annul then Ready(0, 0)
    else
      match Fetch(c, s.mem, s.pc)
      case Fault(why) => NotReady(why)
      case Value(i) =>
        if !Probes(i) then Ready(i, 0)
        else
          match Fetch(Fetched(c, s.mem, s.pc), s.mem, ProbeAddress(s))
          case Fault(why) => NotReady(why)
          case Value(probe) => Ready(i, probe)
  }

  /** The cache after the fetches of a step. */
  function CacheAfterFetch(s: Arch, c: Cache): (c': Cache)
    requires Shaped(c)
    ensures Shaped(c')
  {
    if s.annul then c
    else
      var c1 := Fetched(c, s.mem, s.pc);
      var f := Fetch(c, s.mem, s.pc);
      if f.Value? && Probes(f.w) then Fetched(c1, s.mem, ProbeAddress(s)) else c1
  }

  function StepCached(s: Arch, c: Cache): (r: CachedResult)
    requires Shaped(c)
    ensures r.CachedGo? ==> Shaped(r.c)
  {
    match FetchCached(s, c)
    case NotReady(why) => CachedStop(why)
    case Ready(i, probe) => Finish(s, CacheAfterFetch(s, c), i, probe)
  }

  function RunCached(n: nat, s: Arch, c: Cache): CachedResult
    requires Shaped(c)
  {
    if n == 0 then CachedGo(s, c)
    else
      match StepCached(s, c)
      case CachedStop(why) => CachedStop(why)
      case CachedGo(s', c') => RunCached(n - 1, s', c')
  }

  // ---------------------------------------------------------------------------
  // The discipline a program has to keep. It speaks of the uncached machine only.

  predicate Fetchable(m: Mem, stale: set<Word>, a: Word) {
    TagOf(a) != 0 && LineMapped(m, a) && a !in stale
  }

  /** The instruction the step executes. */
  function Instruction(s: Arch): Word {
    if s.annul then 0
    else match Load(s.mem, s.pc, 4, true) case Fault(_) => 0 case Value(i) => i
  }

  predicate StepFetchable(s: Arch, stale: set<Word>) {
    !s.annul ==>
      Fetchable(s.mem, stale, s.pc) &&
      (Probes(Instruction(s)) ==> Fetchable(s.mem, stale, ProbeAddress(s)))
  }

  /** The words stored to since their line was last invalidated. */
  function StaleAfterStep(s: Arch, stale: set<Word>): set<Word> {
    var i := Instruction(s);
    if IsStore(Opcode(i)) then stale + {WordBase(DataAddress(s, i))}
    else if IsSynci(i) then stale - LineSet(DataAddress(s, i))
    else stale
  }

  /** For n steps, no fetch touches a stale word, a line with tag 0, or a line that is not mapped. */
  predicate Disciplined(n: nat, s: Arch, stale: set<Word>) {
    n == 0 ||
    (StepFetchable(s, stale) &&
     (StepDirect(s).Go? ==> Disciplined(n - 1, StepDirect(s).s, StaleAfterStep(s, stale))))
  }

  // ---------------------------------------------------------------------------
  // Memory under one step

  /** Only a store changes memory, and only in the word of its address. */
  lemma ExecStores(s: Arch, i: Word, probe: Word, c: Cache, stale: set<Word>)
    requires Exec(s, i, probe).Go? && Coherent(c, s.mem, stale)
    ensures Coherent(c, Exec(s, i, probe).s.mem,
                     if IsStore(Opcode(i)) then stale + {WordBase(DataAddress(s, i))} else stale)
  {
    hide Execute, ExecuteStore, OperandS, OperandT, Opcode, DataAddress, WordBase, Coherent;
    if IsStore(Opcode(i)) {
      MemoryExec(s, i, probe);
      StoreCoherent(Advance(s), i, DataAddress(s, i), OperandT(s.r, i), c, stale);
    } else {
      OthersKeepMemory(Advance(s), s.pc, s.delay, i, OperandS(s.r, i), OperandT(s.r, i), probe);
    }
  }

  lemma OthersKeepMemory(s: Arch, at: Word, slot: bool, i: Word, a: Word, b: Word, probe: Word)
    requires !IsStore(Opcode(i)) && Execute(s, at, slot, i, a, b, probe).Done?
    ensures Execute(s, at, slot, i, a, b, probe).s.mem == s.mem
  {
    hide Shl, Shr, Sar, And, Or, Xor, Not, Wrap, Signed, TakenForOverflow, TruncDiv, TruncRem;
    hide Rd, Sa, Rt, UImm, SImm, Load, LoadResult, RegionTarget;
    var op := Opcode(i);
    if op == SPECIAL {
      hide Opcode;
    } else if op == REGIMM {
    } else if op == CP0 {
    } else {
      hide ExecuteSpecial, ExecuteRegimm, ExecuteCp0;
    }
  }

  lemma StoreCoherent(s: Arch, i: Word, address: Word, b: Word, c: Cache, stale: set<Word>)
    requires IsStore(Opcode(i)) && ExecuteStore(s, i, address, b).Done? && Coherent(c, s.mem, stale)
    ensures Coherent(c, ExecuteStore(s, i, address, b).s.mem, stale + {WordBase(address)})
  {
    hide Store, Load, WordBase, Coherent, MergeLeft, MergeRight, LeftShift;
    var op := Opcode(i);
    if op == SB {
      StoreKeepsCoherent(c, s.mem, stale, address, b, 1);
    } else if op == SH {
      StoreKeepsCoherent(c, s.mem, stale, address, b, 2);
    } else if op == SW {
      StoreKeepsCoherent(c, s.mem, stale, address, b, 4);
    } else {
      var w := Load(s.mem, WordBase(address), 4, false).w;
      var v := if op == SWL then MergeRight(b, w, LeftShift(address)) else MergeLeft(b, w, 24 - LeftShift(address));
      WordOfWord(WordBase(address));
      StoreKeepsCoherent(c, s.mem, stale, WordBase(address), v, 4);
    }
  }

  // ---------------------------------------------------------------------------
  // Refinement

  lemma FinishRefines(s: Arch, c: Cache, stale: set<Word>, i: Word, probe: Word)
    requires Coherent(c, s.mem, stale) && i == Instruction(s)
    ensures Architectural(Finish(s, c, i, probe)) == Exec(s, i, probe)
    ensures Exec(s, i, probe).Go? ==>
              Coherent(Finish(s, c, i, probe).c, Exec(s, i, probe).s.mem, StaleAfterStep(s, stale))
  {
    hide Exec, Coherent, Synci, LineSet, WordBase, Instruction, DataAddress;
    if Exec(s, i, probe).Go? {
      ExecStores(s, i, probe, c, stale);
      if IsSynci(i) {
        SynciRefreshes(c, Exec(s, i, probe).s.mem, stale, DataAddress(s, i));
      }
    }
  }

  lemma FetchRefines(s: Arch, c: Cache, stale: set<Word>)
    requires Coherent(c, s.mem, stale) && StepFetchable(s, stale)
    ensures FetchCached(s, c) == FetchDirect(s)
    ensures Coherent(CacheAfterFetch(s, c), s.mem, stale)
  {
    hide Load, Fetch, Fetched, TagOf, LineMapped, Probes, ProbeAddress;
    if !s.annul {
      FetchReadsMemory(c, s.mem, stale, s.pc);
      FetchKeepsCoherent(c, s.mem, stale, s.pc);
      if Probes(Instruction(s)) {
        FetchReadsMemory(Fetched(c, s.mem, s.pc), s.mem, stale, ProbeAddress(s));
        FetchKeepsCoherent(Fetched(c, s.mem, s.pc), s.mem, stale, ProbeAddress(s));
      }
    }
  }

  lemma StepRefines(s: Arch, c: Cache, stale: set<Word>)
    requires Coherent(c, s.mem, stale) && StepFetchable(s, stale)
    ensures Architectural(StepCached(s, c)) == StepDirect(s)
    ensures StepDirect(s).Go? ==>
              Coherent(StepCached(s, c).c, StepDirect(s).s.mem, StaleAfterStep(s, stale))
  {
    hide Exec, StaleAfterStep, Finish, StepFetchable, CacheAfterFetch, FetchCached;
    FetchRefines(s, c, stale);
    if FetchDirect(s).Ready? {
      FinishRefines(s, CacheAfterFetch(s, c), stale, FetchDirect(s).i, FetchDirect(s).probe);
    }
  }

  /** Over every run of a disciplined program the cached machine goes through the states of the
      uncached one, and stops where and why it stops. */
  lemma {:induction false} CachedRefinesDirect(n: nat, s: Arch, c: Cache, stale: set<Word>)
    requires Shaped(c) && Coherent(c, s.mem, stale) && Disciplined(n, s, stale)
    ensures Architectural(RunCached(n, s, c)) == RunDirect(n, s)
  {
    hide StepCached, StepDirect, StaleAfterStep, StepFetchable, Coherent, Shaped;
    if n == 0 {
    } else {
      StepRefines(s, c, stale);
      CoherentIsShaped(c, s.mem, stale);
      if StepDirect(s).Go? {
        var s', c' := StepDirect(s).s, StepCached(s, c).c;
        CachedRefinesDirect(n - 1, s', c', StaleAfterStep(s, stale));
      }
    }
  }

  lemma CoherentIsShaped(c: Cache, m: Mem, stale: set<Word>)
    requires Coherent(c, m, stale)
    ensures Shaped(c)
  {
  }

  /** From reset nothing is stale. */
  lemma ResetRefines(n: nat, m: Mem, pc: Word)
    requires Disciplined(n, ResetState(m, pc), {})
    ensures Architectural(RunCached(n, ResetState(m, pc), ResetCache())) == RunDirect(n, ResetState(m, pc))
  {
    hide Disciplined, RunCached, RunDirect, Coherent;
    ResetIsCoherent(m);
    CachedRefinesDirect(n, ResetState(m, pc), ResetCache(), {});
  }
}
