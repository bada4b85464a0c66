/** The simulator's step loop, updating its state in place. */
module Machine {
  import opened Words
  import opened Memory
  import opened ICache
  import opened ICacheUnit
  import opened Cpu
  import opened CachedRuns

  datatype Outcome = Running | Halting(why: Halt)

  class Simulator {
    var r: Regs
    var hi: Word
    var lo: Word
    var pc: Word
    var pcNext: Word
    var delay: bool    // the next instruction is in a delay slot
    var annul: bool    // the next instruction is not executed
    var cp0: Regs
    var status: Status
    var cause: Cause
    var mem: Mem
    const icache: InstructionCache

    function State(): Arch
      reads this
    {
      Arch(r, hi, lo, pc, pcNext, delay, annul, cp0, status, cause, mem)
    }

    ghost predicate Valid()
      reads this, icache
    {
      icache.Valid()
    }

    constructor (m: Mem, entry: Word)
      ensures Valid() && fresh(icache) && fresh(icache.tag) && fresh(icache.data)
      ensures State() == ResetState(m, entry) && icache.Contents() == ResetCache()
    {
      r, hi, lo := seq(32, _ => 0), 0, 0;
      pc, pcNext, delay, annul := entry, Wrap(entry + 4), false, false;
      cp0, status, cause, mem := seq(32, _ => 0), Status(false, true), Cause(0, false), m;
      icache := new InstructionCache();
    }

    /** Takes over the state an instruction leaves, except for its write-back. */
    method Assign(s: Arch)
      modifies this
      ensures State() == s
    {
      r, hi, lo, pc, pcNext := s.r, s.hi, s.lo, s.pc, s.pcNext;
      delay, annul, cp0, status, cause, mem := s.delay, s.annul, s.cp0, s.status, s.cause, s.mem;
    }

    /** Fetches the instruction, and the word to probe when it is the branch to itself. */
    method FetchPhase() returns (f: Phase)
      requires Valid()
      modifies icache, icache.tag, icache.data
      ensures Valid()
      ensures f == FetchCached(State(), old(icache.Contents()))
      ensures icache.Contents() == CacheAfterFetch(State(), old(icache.Contents()))
    {
      hide Fetch, Fetched;
      if annul {
        return Ready(0, 0);
      }
      var fetched := icache.FetchFrom(mem, pc);
      if fetched.Fault? {
        return NotReady(fetched.why);
      }
      var i := fetched.w;
      if !Probes(i) {
        return Ready(i, 0);
      }
      fetched := icache.FetchFrom(mem, Wrap(pcNext + 4));
      f := if fetched.Fault? then NotReady(fetched.why) else Ready(i, fetched.w);
    }

    /** Executes the fetched instruction, and writes its result back. */
    method ExecutePhase(i: Word, probe: Word) returns (o: Outcome)
      requires Valid()
      modifies this, icache.tag
      ensures Valid()
      ensures match Finish(old(State()), old(icache.Contents()), i, probe)
              case CachedGo(s, c) => o == Running && State() == s && icache.Contents() == c
              case CachedStop(why) => o == Halting(why)
    {
      hide Execute, Synci, OperandS, OperandT, Wrap, SImm, IsSynci;
      var pcPrev, slot := pc, delay;
      pc, pcNext := pcNext, Wrap(pcNext + 4);
      delay, annul := false, false;
      var a, b := OperandS(r, i), OperandT(r, i);
      match Execute(State(), pcPrev, slot, i, a, b, probe)
      case Halted(why) =>
        return Halting(why);
      case Done(s, wbr, wbv) =>
        if IsSynci(i) {
          icache.Invalidate(Wrap(a + SImm(i)));
        }
        Assign(s);
        if wbr != 0 {
          r := r[wbr := wbv];
        }
        return Running;
    }

    /** One turn of the loop. */
    method Step() returns (o: Outcome)
      requires Valid()
      modifies this, icache, icache.tag, icache.data
      ensures Valid()
      ensures match StepCached(old(State()), old(icache.Contents()))
              case CachedGo(s, c) => o == Running && State() == s && icache.Contents() == c
              case CachedStop(why) => o == Halting(why)
    {
      hide FetchCached, CacheAfterFetch, Finish;
      var f := FetchPhase();
      match f
      case NotReady(why) => o := Halting(why);
      case Ready(i, probe) => o := ExecutePhase(i, probe);
    }

    /** The loop, for at most n turns. */
    method Run(n: nat) returns (o: Outcome)
      requires Valid()
      modifies this, icache, icache.tag, icache.data
      ensures Valid()
      ensures match RunCached(n, old(State()), old(icache.Contents()))
              case CachedGo(s, c) => o == Running && State() == s && icache.Contents() == c
              case CachedStop(why) => o == Halting(why)
    {
      hide StepCached;
      ghost var whole := RunCached(n, State(), icache.Contents());
      var k := n;
      o := Running;
      while k > 0
        invariant Valid() && o == Running
        invariant RunCached(k, State(), icache.Contents()) == whole
      {
        o := Step();
        if o.Halting? {
          return;
        }
        k := k - 1;
      }
    }
  }
}
