/** The debugger stub's single step: it plants breakpoint words where the program may go next, and
    puts the hoisted words back when the next exception arrives. */
module GdbStep {
  import opened Words
  import opened Memory
  import opened Cpu

  /** The word of the break instruction. */
  const BP: Word := 0x0000_000D

  /** The last of the branch-likely opcodes, which follow the coprocessors'. */
  const BGTZL := 23

  // ---------------------------------------------------------------------------
  // Where the program may go next

  datatype Prediction = Straight | Jumps(target: Word) | MayBranch(target: Word)

  /** The opcodes the stub takes for conditional branches. */
  predicate PredictsBranch(i: Word) {
    var op := Opcode(i);
    op == REGIMM || BEQ <= op <= BGTZ || CP0 <= op <= BGTZL
  }

  function Predict(r: Regs, epc: Word, i: Word): Prediction {
    var op := Opcode(i);
    if op == SPECIAL then
      if Funct(i) == JALR || Funct(i) == JR then Jumps(r[Rs(i)]) else Straight
    else if op == JAL || op == J then Jumps(Or(Shl(Shr(Wrap(epc + 4), 28), 28), 4 * Offset(i)))
    else if PredictsBranch(i) then MayBranch(Wrap(epc + 4 + 4 * SImm(i)))
    else Straight
  }

  /** Where breakpoints are planted, in the order of the slots. */
  function Plants(r: Regs, epc: Word, i: Word): (ps: seq<Word>)
    ensures 1 <= |ps| <= 2
    ensures |ps| == 2 ==> ps[0] != ps[1] && ps[0] == Wrap(epc + 8)
  {
    match Predict(r, epc, i)
    case Straight => [Wrap(epc + 4)]
    case Jumps(t) => [t]
    case MayBranch(t) => if t == Wrap(epc + 8) then [t] else [Wrap(epc + 8), t]
  }

  // ---------------------------------------------------------------------------
  // The stub's state. A slot is free when its address is 0.

  datatype Saved = Saved(addr: Word, val: Word)

  const FREE := Saved(0, 0)

  datatype Stub = Stub(mem: Mem, step0: Saved, step1: Saved, async: Saved)

  /** The stub's own loads and stores are the processor's; a fault in them ends the run. */
  datatype Outcome = Fine(s: Stub) | Crash(why: Halt)

  datatype Hoisted = Hoisted(mem: Mem, saved: Saved) | NotHoisted(why: Halt)

  /** Plants a breakpoint, and returns the word it replaces. */
  function Hoist(m: Mem, a: Word): Hoisted {
    match Load(m, a, 4, false)
    case Fault(why) => NotHoisted(why)
    case Value(v) =>
      match Store(m, a, BP, 4)
      case StoreFault(why) => NotHoisted(why)
      case Stored(m') => Hoisted(m', Saved(a, v))
  }

  function PlantAll(st: Stub, ps: seq<Word>): Outcome
    requires 1 <= |ps| <= 2
  {
    match Hoist(st.mem, ps[0])
    case NotHoisted(why) => Crash(why)
    case Hoisted(m0, s0) =>
      if |ps| == 1 then Fine(st.(mem := m0, step0 := s0))
      else
        match Hoist(m0, ps[1])
        case NotHoisted(why) => Crash(why)
        case Hoisted(m1, s1) => Fine(st.(mem := m1, step0 := s0, step1 := s1))
  }

  function SingleStep(st: Stub, r: Regs, epc: Word): Outcome {
    match Load(st.mem, epc, 4, false)
    case Fault(why) => Crash(why)
    case Value(i) => PlantAll(st, Plants(r, epc, i))
  }

  function SetAsync(st: Stub, epc: Word): Outcome {
    match Hoist(st.mem, epc)
    case NotHoisted(why) => Crash(why)
    case Hoisted(m, s) => Fine(st.(mem := m, async := s))
  }

  /** The hoisted words that are put back, in order: the second slot only when the first is taken. */
  function Live(st: Stub): (ps: seq<Saved>)
    ensures |ps| <= 3 && forall i :: 0 <= i < |ps| ==> ps[i].addr != 0
  {
    (if st.step0.addr == 0 then []
     else if st.step1.addr == 0 then [st.step0] else [st.step0, st.step1]) +
    (if st.async.addr == 0 then [] else [st.async])
  }

  function PutBack(m: Mem, ps: seq<Saved>): Stored
    decreases |ps|
  {
    if ps == [] then Stored(m)
    else
      match Store(m, ps[0].addr, ps[0].val, 4)
      case StoreFault(why) => StoreFault(why)
      case Stored(m') => PutBack(m', ps[1..])
  }

  /** The slots after their words have been put back: taken slots become free. */
  function Freed(st: Stub, m: Mem): Stub {
    Stub(m, st.step0.(addr := 0), if st.step0.addr == 0 then st.step1 else st.step1.(addr := 0), st.async.(addr := 0))
  }

  predicate AllFree(st: Stub) {
    st.step0.addr == 0 && st.step1.addr == 0 && st.async.addr == 0
  }

  function Undo(st: Stub): Outcome {
    match PutBack(st.mem, Live(st))
    case StoreFault(why) => Crash(why)
    case Stored(m) => Fine(Freed(st, m))
  }

  // ---------------------------------------------------------------------------
  // A visit to the handler

  /** The debugger writes bytes of memory while the program is stopped. */
  datatype Poke = Poke(addr: Word, val: Byte)

  datatype Resume = Continue | StepFrom(r: Regs, epc: Word)

  /** A coprocessor-unusable trap for the floating-point unit: the handler only switches it on. */
  predicate FpuTrap(cause: Word) {
    cause / 4 % 32 == 11 && cause / 0x1000_0000 % 4 == 1
  }

  function PokeAll(m: Mem, ks: seq<Poke>): Stored
    decreases |ks|
  {
    if ks == [] then Stored(m)
    else
      match Store(m, ks[0].addr, ks[0].val, 1)
      case StoreFault(why) => StoreFault(why)
      case Stored(m') => PokeAll(m', ks[1..])
  }

  function Poked(st: Stub, ks: seq<Poke>): Outcome {
    match PokeAll(st.mem, ks)
    case StoreFault(why) => Crash(why)
    case Stored(m) => Fine(st.(mem := m))
  }

  function Resumed(st: Stub, resume: Resume): Outcome {
    match resume
    case Continue => Fine(st)
    case StepFrom(r, epc) => SingleStep(st, r, epc)
  }

  function Handle(st: Stub, cause: Word, ks: seq<Poke>, resume: Resume): Outcome {
    if FpuTrap(cause) then Fine(st)
    else
      match Undo(st)
      case Crash(why) => Crash(why)
      case Fine(st1) =>
        match Poked(st1, ks)
        case Crash(why) => Crash(why)
        case Fine(st2) => Resumed(st2, resume)
  }

  // ---------------------------------------------------------------------------
  // Runs

  datatype Event =
    | ProgramStore(a: Word, v: Word, c: nat)
    | Interrupt(epc: Word)
    | Exception(cause: Word, pokes: seq<Poke>, resume: Resume)

  predicate WellFormed(e: Event) {
    e.ProgramStore? ==> e.c == 1 || e.c == 2 || e.c == 4
  }

  function Apply(e: Event, st: Stub): Outcome
    requires WellFormed(e)
  {
    match e
    case ProgramStore(a, v, c) =>
      (match Store(st.mem, a, v, c)
       case StoreFault(why) => Crash(why)
       case Stored(m) => Fine(st.(mem := m)))
    case Interrupt(epc) => SetAsync(st, epc)
    case Exception(cause, ks, resume) => Handle(st, cause, ks, resume)
  }

  /** The same event for a memory in which no breakpoints are ever planted. */
  function ApplyPlain(e: Event, m: Mem): Stored
    requires WellFormed(e)
  {
    match e
    case ProgramStore(a, v, c) => Store(m, a, v, c)
    case Interrupt(_) => Stored(m)
    case Exception(cause, ks, _) => if FpuTrap(cause) then Stored(m) else PokeAll(m, ks)
  }

  ghost predicate AllWellFormed(es: seq<Event>) {
    forall k :: 0 <= k < |es| ==> WellFormed(es[k])
  }

  ghost function RunEvents(es: seq<Event>, st: Stub): Outcome
    requires AllWellFormed(es)
  {
    if es == [] then Fine(st)
    else
      match Apply(es[0], st)
      case Crash(why) => Crash(why)
      case Fine(st') => RunEvents(es[1..], st')
  }

  ghost function RunPlain(es: seq<Event>, m: Mem): Stored
    requires AllWellFormed(es)
  {
    if es == [] then Stored(m)
    else
      match ApplyPlain(es[0], m)
      case StoreFault(why) => StoreFault(why)
      case Stored(m') => RunPlain(es[1..], m')
  }

  // ---------------------------------------------------------------------------
  // What the theorem asks of a run

  predicate Planted(st: Stub, a: Word) {
    exists k :: 0 <= k < |Live(st)| && Live(st)[k].addr == WordBase(a)
  }

  /** The program stores into no planted word; an interrupt finds its slot free and its address
      neither 0 nor planted; a single step plants nothing at 0. */
  predicate Allowed(e: Event, st: Stub)
    requires WellFormed(e)
  {
    match e
    case ProgramStore(a, _, _) => !Planted(st, a)
    case Interrupt(epc) => st.async.addr == 0 && epc != 0 && !Planted(st, epc)
    case Exception(cause, ks, StepFrom(r, epc)) =>
      var st1 := Undo(st);
      var m := if st1.Fine? then PokeAll(st1.s.mem, ks) else StoreFault(Fatal);
      var i := if m.Stored? then Load(m.mem, epc, 4, false) else Fault(Fatal);
      !FpuTrap(cause) && i.Value? ==> 0 !in Plants(r, epc, i.w)
    case Exception(_, _, Continue) => true
  }

  ghost predicate AllAllowed(es: seq<Event>, st: Stub)
    requires AllWellFormed(es)
  {
    es == [] || (Allowed(es[0], st) && (Apply(es[0], st).Fine? ==> AllAllowed(es[1..], Apply(es[0], st).s)))
  }

  /** Memory is mapped in whole words, as segments are. */
  ghost predicate WholeWords(m: Mem) {
    forall p: Word, q: Word :: p in m && WordBase(p) == WordBase(q) ==> q in m
  }

  predicate CanPatch(m: Mem, a: Word) {
    Load(m, a, 4, false).Value? && Store(m, a, 0, 4).Stored?
  }

  /** The words at these addresses can be written, and hold breaks. */
  ghost predicate BreaksAt(m: Mem, ps: seq<Saved>) {
    forall k :: 0 <= k < |ps| ==> CanPatch(m, ps[k].addr) && LoadWord(m, ps[k].addr) == BP
  }

  /** What holds between visits to the handler: the live slots are at distinct words that hold
      breaks. A step1 with step0 free is never put back, and there is none. */
  ghost predicate Ready(st: Stub) {
    WholeWords(st.mem) && (st.step0.addr == 0 ==> st.step1.addr == 0) && BreaksAt(st.mem, Live(st)) &&
    (forall j, k :: 0 <= j < k < |Live(st)| ==> Live(st)[j].addr != Live(st)[k].addr)
  }
}
