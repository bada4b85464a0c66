/** The debugger stub as it runs, patching memory in place. */
module GdbUnit {
  import opened Words
  import opened Memory
  import opened Cpu
  import opened GdbStep

  /** Whether the stub's own memory accesses succeed; a fault in one ends the run. */
  datatype Ending = Returned | Faulted(why: Halt)

  class DebugStub {
    var mem: Mem
    const stepBp: array<Saved>
    var asyncBp: Saved

    ghost predicate Valid()
      reads this
    {
      stepBp.Length == 2
    }

    ghost function State(): Stub
      reads this, stepBp
      requires Valid()
    {
      Stub(mem, stepBp[0], stepBp[1], asyncBp)
    }

    constructor (m: Mem)
      ensures Valid() && fresh(stepBp) && State() == Stub(m, FREE, FREE, FREE)
    {
      mem, asyncBp := m, FREE;
      stepBp := new Saved[2](_ => FREE);
    }

    /** Loads the word at an address and plants a breakpoint over it. */
    method Exchange(a: Word) returns (o: Ending, val: Word)
      modifies this`mem
      ensures match Hoist(old(mem), a)
              case NotHoisted(why) => o == Faulted(why)
              case Hoisted(m, s) => o == Returned && mem == m && Saved(a, val) == s
    {
      hide Load, Store;
      var loaded := Load(mem, a, 4, false);
      if loaded.Fault? {
        return Faulted(loaded.why), 0;
      }
      val := loaded.w;
      var stored := Store(mem, a, BP, 4);
      if stored.StoreFault? {
        return Faulted(stored.why), val;
      }
      mem := stored.mem;
      o := Returned;
    }

    /** The address the stub predicts for the instruction at epc. */
    method Predicted(r: Regs, epc: Word, i: Word) returns (targ: Word, isBranch: bool, isCond: bool)
      ensures match Predict(r, epc, i)
              case Straight => !isBranch
              case Jumps(t) => isBranch && !isCond && targ == t
              case MayBranch(t) => isBranch && isCond && targ == t
    {
      hide Or, Shl, Shr, Rs, SImm, Offset, Wrap;
      targ, isBranch, isCond := epc, false, false;
      var op := Opcode(i);
      if op == SPECIAL {
        if Funct(i) == JALR || Funct(i) == JR {
          targ, isBranch := r[Rs(i)], true;
        }
      } else if op == REGIMM {
        targ, isBranch, isCond := Wrap(epc + 4 + 4 * SImm(i)), true, true;
      } else if op == JAL || op == J {
        targ, isBranch := Wrap(epc + 4), true;
        targ := Shr(targ, 28);
        targ := Shl(targ, 28);
        targ := Or(targ, 4 * Offset(i));
      } else if PredictsBranch(i) {
        targ, isBranch, isCond := Wrap(epc + 4 + 4 * SImm(i)), true, true;
      }
    }

    method SingleStep(r: Regs, epc: Word) returns (o: Ending)
      requires Valid()
      modifies this`mem, stepBp
      ensures Valid()
      ensures match GdbStep.SingleStep(old(State()), r, epc)
              case Crash(why) => o == Faulted(why)
              case Fine(s) => o == Returned && State() == s
    {
      hide Load, Hoist, Predict, Wrap;
      var fetched := Load(mem, epc, 4, false);
      if fetched.Fault? {
        return Faulted(fetched.why);
      }
      var targ, isBranch, isCond := Predicted(r, epc, fetched.w);
      var val;
      if isBranch {
        var i := 0;
        if isCond && targ != Wrap(epc + 8) {
          o, val := Exchange(Wrap(epc + 8));
          if o.Faulted? {
            return;
          }
          stepBp[i] := Saved(Wrap(epc + 8), val);
          i := i + 1;
        }
        o, val := Exchange(targ);
        if o.Faulted? {
          return;
        }
        stepBp[i] := Saved(targ, val);
      } else {
        o, val := Exchange(Wrap(epc + 4));
        if o.Faulted? {
          return;
        }
        stepBp[0] := Saved(Wrap(epc + 4), val);
      }
    }

    method SetAsyncBreakpoint(epc: Word) returns (o: Ending)
      requires Valid()
      modifies this
      ensures Valid()
      ensures match SetAsync(old(State()), epc)
              case Crash(why) => o == Faulted(why)
              case Fine(s) => o == Returned && State() == s
    {
      hide Hoist;
      var val;
      o, val := Exchange(epc);
      if o.Returned? {
        asyncBp := Saved(epc, val);
      }
    }

    /** Writes a hoisted word back. */
    method Restore(s: Saved) returns (o: Ending)
      modifies this`mem
      ensures match Store(old(mem), s.addr, s.val, 4)
              case StoreFault(why) => o == Faulted(why)
              case Stored(m) => o == Returned && mem == m
    {
      hide Store;
      var stored := Store(mem, s.addr, s.val, 4);
      match stored
      case StoreFault(why) => o := Faulted(why);
      case Stored(m) =>
        mem := m;
        o := Returned;
    }

    /** The restoring part of a visit to the handler. */
    method RestoreAll() returns (o: Ending)
      requires Valid()
      modifies this, stepBp
      ensures Valid()
      ensures match Undo(old(State()))
              case Crash(why) => o == Faulted(why)
              case Fine(s) => o == Returned && State() == s
    {
      hide Store, PutBack;
      ghost var st := State();
      UndoSteps(st);
      if stepBp[0].addr != 0 {
        o := Restore(stepBp[0]);
        if o.Faulted? {
          return;
        }
        stepBp[0] := stepBp[0].(addr := 0);
        if stepBp[1].addr != 0 {
          o := Restore(stepBp[1]);
          if o.Faulted? {
            return;
          }
          stepBp[1] := stepBp[1].(addr := 0);
        }
      }
      PutBackOne(mem, st.async);
      o := Returned;
      if asyncBp.addr != 0 {
        o := Restore(asyncBp);
        if o.Faulted? {
          return;
        }
        asyncBp := asyncBp.(addr := 0);
      }
    }

    /** A visit to the handler: the debugger's writes and its last command are given. */
    method HandleException(cause: Word, pokes: seq<Poke>, resume: Resume) returns (o: Ending)
      requires Valid()
      modifies this, stepBp
      ensures Valid()
      ensures match Handle(old(State()), cause, pokes, resume)
              case Crash(why) => o == Faulted(why)
              case Fine(s) => o == Returned && State() == s
    {
      hide Undo, GdbStep.SingleStep, Store;
      if FpuTrap(cause) {
        return Returned;
      }
      o := RestoreAll();
      if o.Faulted? {
        return;
      }
      ghost var st1 := State();
      ghost var all := PokeAll(mem, pokes);
      var k := 0;
      assert pokes[0..] == pokes;
      while k < |pokes|
        invariant 0 <= k <= |pokes| && Valid() && PokeAll(mem, pokes[k..]) == all
        invariant State() == st1.(mem := mem)
        modifies this`mem
      {
        assert pokes[k..][0] == pokes[k] && pokes[k..][1..] == pokes[k + 1..];
        var stored := Store(mem, pokes[k].addr, pokes[k].val, 1);
        if stored.StoreFault? {
          return Faulted(stored.why);
        }
        mem := stored.mem;
        k := k + 1;
      }
      match resume
      case Continue => o := Returned;
      case StepFrom(r, epc) => o := SingleStep(r, epc);
    }
  }

  function AsyncPart(s: Saved): seq<Saved> {
    if s.addr == 0 then [] else [s]
  }

  function Then(r: Stored, ps: seq<Saved>): Stored {
    match r
    case StoreFault(_) => r
    case Stored(m) => PutBack(m, ps)
  }

  lemma PutBackSteps(m: Mem, p: Saved, ps: seq<Saved>)
    ensures PutBack(m, [p] + ps) == Then(Store(m, p.addr, p.val, 4), ps)
  {
    hide Store;
    assert ([p] + ps)[1..] == ps;
  }

  lemma PutBackOne(m: Mem, s: Saved)
    ensures PutBack(m, AsyncPart(s)) == if s.addr == 0 then Stored(m) else Store(m, s.addr, s.val, 4)
  {
    if s.addr != 0 {
      PutBackSteps(m, s, []);
      assert [s] + [] == [s];
    }
    hide Store;
  }

  /** The order of putting back: the second slot only when the first is taken, the interrupt's last. */
  lemma UndoSteps(st: Stub)
    ensures var tail := AsyncPart(st.async);
            var first := Store(st.mem, st.step0.addr, st.step0.val, 4);
            PutBack(st.mem, Live(st)) ==
            if st.step0.addr == 0 then PutBack(st.mem, tail)
            else if st.step1.addr == 0 || first.StoreFault? then Then(first, tail)
            else Then(Store(first.mem, st.step1.addr, st.step1.val, 4), tail)
  {
    hide Store, PutBack;
    var tail := AsyncPart(st.async);
    if st.step0.addr == 0 {
      assert Live(st) == tail;
    } else if st.step1.addr == 0 {
      assert Live(st) == [st.step0] + tail;
      PutBackSteps(st.mem, st.step0, tail);
    } else {
      assert Live(st) == [st.step0] + ([st.step1] + tail);
      PutBackSteps(st.mem, st.step0, [st.step1] + tail);
      if Store(st.mem, st.step0.addr, st.step0.val, 4).Stored? {
        PutBackSteps(Store(st.mem, st.step0.addr, st.step0.val, 4).mem, st.step1, tail);
      }
    }
  }
}
