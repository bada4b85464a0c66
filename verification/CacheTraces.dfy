/** What the cached processor does to its cache and memory: a run is a sequence of fetches, stores and
    invalidations, so all that is known of such sequences holds of every run. */
module CacheTraces {
  import opened Words
  import opened Memory
  import opened ICache
  import opened CacheTheorems
  import opened Cpu
  import opened CachedRuns

  // ---------------------------------------------------------------------------
  // One step

  /** The fetches of the step that executes i: none in an annulled turn, and a second one for the probe. */
  function FetchEvents(s: Arch, i: Word): seq<Event> {
    if s.annul then []
    else if Probes(i) then [FetchAt(s.pc), FetchAt(ProbeAddress(s))]
    else [FetchAt(s.pc)]
  }

  /** Its store. SWL and SWR store the whole word they are in. */
  function StoreEvents(s: Arch, i: Word): seq<Event> {
    var op, a, t := Opcode(i), DataAddress(s, i), OperandT(s.r, i);
    if op == SB then [StoreAt(a, t, 1)]
    else if op == SH then [StoreAt(a, t, 2)]
    else if op == SW then [StoreAt(a, t, 4)]
    else if op == SWL || op == SWR then
      match Load(s.mem, WordBase(a), 4, false)
      case Fault(_) => []
      case Value(w) =>
        var v := if op == SWL then MergeRight(t, w, LeftShift(a)) else MergeLeft(t, w, 24 - LeftShift(a));
        [StoreAt(WordBase(a), v, 4)]
    else []
  }

  function SynciEvents(s: Arch, i: Word): seq<Event> {
    if IsSynci(i) then [SynciAt(DataAddress(s, i))] else []
  }

  function StepTrace(s: Arch, i: Word): seq<Event> {
    FetchEvents(s, i) + (StoreEvents(s, i) + SynciEvents(s, i))
  }

  /** The events take memory and cache from one state to another. */
  predicate Leads(m: Mem, c: Cache, es: seq<Event>, m': Mem, c': Cache)
    requires Shaped(c)
  {
    AllAllowed(m, es) && MemAfterAll(m, es) == m' && CacheAfterAll(c, m, es) == c'
  }

  lemma {:induction false} LeadsOn(m: Mem, c: Cache, es: seq<Event>, m1: Mem, c1: Cache, fs: seq<Event>,
                                   m2: Mem, c2: Cache)
    requires Shaped(c) && Leads(m, c, es, m1, c1) && Shaped(c1) && Leads(m1, c1, fs, m2, c2)
    ensures Leads(m, c, es + fs, m2, c2)
    decreases |es|
  {
    hide Shaped, Allowed, MemAfter, CacheAfter;
    if es == [] {
      assert es + fs == fs;
    } else {
      assert (es + fs)[0] == es[0] && (es + fs)[1..] == es[1..] + fs;
      KeepsShape(m, c, es[0]);
      LeadsOn(MemAfter(m, es[0]), CacheAfter(c, m, es[0]), es[1..], m1, c1, fs, m2, c2);
    }
  }

  lemma KeepsShape(m: Mem, c: Cache, e: Event)
    requires Shaped(c)
    ensures Shaped(CacheAfter(c, m, e))
  {
  }

  lemma OneEvent(m: Mem, c: Cache, e: Event)
    requires Shaped(c) && Allowed(m, e)
    ensures Leads(m, c, [e], MemAfter(m, e), CacheAfter(c, m, e))
  {
    hide Shaped, MemAfter, CacheAfter, Allowed;
    KeepsShape(m, c, e);
    assert [e][0] == e && [e][1..] == [];
    NoEvent(MemAfter(m, e), CacheAfter(c, m, e));
  }

  lemma NoEvent(m: Mem, c: Cache)
    requires Shaped(c)
    ensures Leads(m, c, [], m, c)
  {
  }

  lemma FetchesTraced(s: Arch, c: Cache, i: Word, probe: Word)
    requires Shaped(c) && FetchCached(s, c) == Ready(i, probe)
    ensures Leads(s.mem, c, FetchEvents(s, i), s.mem, CacheAfterFetch(s, c))
  {
    hide Shaped, Leads, Fetch, Fetched, Probes, ProbeAddress;
    if s.annul {
      NoEvent(s.mem, c);
    } else {
      var e, c1 := FetchAt(s.pc), Fetched(c, s.mem, s.pc);
      OneEvent(s.mem, c, e);
      if Probes(i) {
        var e' := FetchAt(ProbeAddress(s));
        KeepsShape(s.mem, c, e);
        OneEvent(s.mem, c1, e');
        LeadsOn(s.mem, c, [e], s.mem, c1, [e'], s.mem, Fetched(c1, s.mem, ProbeAddress(s)));
        assert [e] + [e'] == [e, e'];
      }
    }
  }

  lemma StoreTraced(s: Arch, i: Word, probe: Word, c: Cache)
    requires Shaped(c) && Exec(s, i, probe).Go?
    ensures Leads(s.mem, c, StoreEvents(s, i), Exec(s, i, probe).s.mem, c)
  {
    hide Shaped, Leads, Execute, ExecuteStore, OperandS, OperandT, Opcode, DataAddress, WordBase, Load, Store;
    hide MergeLeft, MergeRight, LeftShift;
    if IsStore(Opcode(i)) {
      MemoryExec(s, i, probe);
      StoreExecuted(Advance(s), s, i, DataAddress(s, i), OperandT(s.r, i), c);
    } else {
      NoEvent(s.mem, c);
      OthersKeepMemory(Advance(s), s.pc, s.delay, i, OperandS(s.r, i), OperandT(s.r, i), probe);
    }
  }

  lemma StoreExecuted(n: Arch, s: Arch, i: Word, a: Word, t: Word, c: Cache)
    requires Shaped(c) && IsStore(Opcode(i)) && n.mem == s.mem && a == DataAddress(s, i) && t == OperandT(s.r, i)
    requires ExecuteStore(n, i, a, t).Done?
    ensures Leads(s.mem, c, StoreEvents(s, i), ExecuteStore(n, i, a, t).s.mem, c)
  {
    hide Shaped, Leads, OperandT, Opcode, DataAddress, WordBase, Load, Store, MergeLeft, MergeRight, LeftShift;
    var es := StoreEvents(s, i);
    assert |es| == 1;
    OneEvent(s.mem, c, es[0]);
    assert es == [es[0]];
  }

  /** A step of the cached processor is these fetches, its store and its invalidation, in this order. */
  lemma StepTraced(s: Arch, c: Cache, i: Word, probe: Word)
    requires Shaped(c) && FetchCached(s, c) == Ready(i, probe) && StepCached(s, c).CachedGo?
    ensures Leads(s.mem, c, StepTrace(s, i), StepCached(s, c).s.mem, StepCached(s, c).c)
  {
    hide Shaped, Leads, Exec, FetchCached, CacheAfterFetch, FetchEvents, StoreEvents, DataAddress, Synci, IsSynci;
    var c1, m2 := CacheAfterFetch(s, c), Exec(s, i, probe).s.mem;
    FetchesTraced(s, c, i, probe);
    StoreTraced(s, i, probe, c1);
    if IsSynci(i) {
      OneEvent(m2, c1, SynciAt(DataAddress(s, i)));
    } else {
      NoEvent(m2, c1);
    }
    LeadsOn(s.mem, c1, StoreEvents(s, i), m2, c1, SynciEvents(s, i), m2, StepCached(s, c).c);
    LeadsOn(s.mem, c, FetchEvents(s, i), s.mem, c1, StoreEvents(s, i) + SynciEvents(s, i), m2, StepCached(s, c).c);
  }

  // ---------------------------------------------------------------------------
  // Runs

  function RunTrace(n: nat, s: Arch, c: Cache): seq<Event>
    requires Shaped(c)
  {
    if n == 0 || FetchCached(s, c).NotReady? then []
    else
      var now := StepTrace(s, FetchCached(s, c).i);
      match StepCached(s, c)
      case CachedStop(_) => []
      case CachedGo(s', c') => now + RunTrace(n - 1, s', c')
  }

  /** So is every run. */
  lemma {:induction false} RunTraced(n: nat, s: Arch, c: Cache)
    requires Shaped(c) && RunCached(n, s, c).CachedGo?
    ensures Leads(s.mem, c, RunTrace(n, s, c), RunCached(n, s, c).s.mem, RunCached(n, s, c).c)
  {
    hide Shaped, Leads, StepTrace, StepCached, FetchCached;
    if n == 0 {
      NoEvent(s.mem, c);
    } else {
      var f, r, end := FetchCached(s, c), StepCached(s, c), RunCached(n, s, c);
      StepWasReady(s, c);
      hide RunTrace, RunCached;
      StepTraced(s, c, f.i, f.probe);
      RunTraceStep(n, s, c);
      RunTraced(n - 1, r.s, r.c);
      LeadsOn(s.mem, c, StepTrace(s, f.i), r.s.mem, r.c, RunTrace(n - 1, r.s, r.c), end.s.mem, end.c);
    }
  }

  lemma StepWasReady(s: Arch, c: Cache)
    requires Shaped(c) && StepCached(s, c).CachedGo?
    ensures FetchCached(s, c).Ready? && Shaped(StepCached(s, c).c)
  {
    hide FetchCached;
  }

  lemma RunTraceStep(n: nat, s: Arch, c: Cache)
    requires n > 0 && Shaped(c) && RunCached(n, s, c).CachedGo?
    ensures var f, r := FetchCached(s, c), StepCached(s, c);
            f.Ready? && r.CachedGo? && Shaped(r.c) && RunCached(n, s, c) == RunCached(n - 1, r.s, r.c) &&
            RunTrace(n, s, c) == StepTrace(s, f.i) + RunTrace(n - 1, r.s, r.c)
  {
    hide StepCached, FetchCached, StepTrace, Shaped;
    StepWasReady(s, c);
  }

  /** In particular, over every run from reset the nonzero tags of a line stay distinct. */
  lemma RunsKeepTagsDistinct(n: nat, m: Mem, pc: Word)
    requires RunCached(n, ResetState(m, pc), ResetCache()).CachedGo?
    ensures Valid(RunCached(n, ResetState(m, pc), ResetCache()).c)
    ensures DistinctTags(RunCached(n, ResetState(m, pc), ResetCache()).c)
  {
    hide RunCached, RunTrace, CacheAfterAll, MemAfterAll, AllAllowed, DistinctTags;
    RunTraced(n, ResetState(m, pc), ResetCache());
    ResetIsDistinct();
    TagsStayDistinct(ResetCache(), m, RunTrace(n, ResetState(m, pc), ResetCache()));
  }

  lemma ResetIsDistinct()
    ensures DistinctTags(ResetCache())
  {
  }
}
