/** Breakpoints and the instruction cache: the stub's stores do not invalidate it. */
module GdbCached {
  import opened Words
  import opened Memory
  import opened ICache
  import opened CacheTheorems
  import opened Cpu
  import opened CachedRuns
  import opened GdbTheorems
  import opened GdbCoverage
  import GdbStep

  /** A word stored to is not stale if no line of the cache holds it. */
  lemma NotCachedNotStale(c: Cache, m: Mem, a: Word)
    requires Coherent(c, m, {a}) && a % 4 == 0 && TagOf(a) != 0 && !Hit(c, a)
    ensures Coherent(c, m, {})
  {
    hide TagOf, LineOf, LineBase, BaseOf, LineAddress, FetchWord;
    forall way: nat, line: nat, k: nat | way < WAYS && line < LINES && k < LINE_WORDS
      ensures WordCoherent(c, m, {}, way, line, k)
    {
      assert WordCoherent(c, m, {a}, way, line, k);
      var tag := c.tag[Slot(way, line)];
      if LineAddress(BaseOf(tag, line), k) == a {
        LineOfWord(BaseOf(tag, line), k);
        BaseParts(tag, line);
        AddressParts(a);
        BaseParts(TagOf(a), LineOf(a));
      }
    }
  }

  /** Planting at a word that is not cached leaves nothing stale. */
  lemma HoistCoherent(c: Cache, m: Mem, a: Word)
    requires Coherent(c, m, {}) && TagOf(a) != 0 && !Hit(c, a) && GdbStep.Hoist(m, a).Hoisted?
    ensures Coherent(c, GdbStep.Hoist(m, a).mem, {})
  {
    hide TagOf, Hit, Coherent, Store, WordBase, GdbStep.CanPatch, GdbStep.Hoist;
    HoistMeans(m, a);
    CanPatchMeans(m, a);
    StoreKeepsCoherent(c, m, {}, a, GdbStep.BP, 4);
    assert {} + {WordBase(a)} == {a};
    NotCachedNotStale(c, GdbStep.Hoist(m, a).mem, a);
  }

  /** On the cached machine a planted break is seen exactly when its line is not cached, or the word
      was a break already. */
  lemma BreakSeenIff(c: Cache, m: Mem, a: Word)
    requires Coherent(c, m, {}) && TagOf(a) != 0 && LineMapped(m, a) && GdbStep.Hoist(m, a).Hoisted?
    ensures a % 4 == 0
    ensures Fetch(c, GdbStep.Hoist(m, a).mem, a) == Value(GdbStep.BP) <==> !Hit(c, a) || LoadWord(m, a) == GdbStep.BP
  {
    HoistMeans(m, a);
    CanPatchMeans(m, a);
    hide LineBase, LineAddress, TagOf, Hit, Coherent, LoadWord, Load, Store, Fetch, WordBase;
    hide GdbStep.CanPatch, GdbStep.Hoist;
    var m' := GdbStep.Hoist(m, a).mem;
    if Hit(c, a) {
      StaleReadsOldWord(c, m, a, GdbStep.BP);
    } else {
      HoistCoherent(c, m, a);
      forall q: Word | q in m.Keys
        ensures q in m'.Keys
      {
        StoreFrame(m, a, GdbStep.BP, 4, q);
      }
      assert LineMapped(m', a);
      FetchReadsMemory(c, m', {}, a);
      HoldsBreak(m, a);
    }
  }

  lemma HoldsBreak(m: Mem, a: Word)
    requires GdbStep.CanPatch(m, a) && Store(m, a, GdbStep.BP, 4).Stored?
    ensures Load(Store(m, a, GdbStep.BP, 4).mem, a, 4, true) == Value(GdbStep.BP)
  {
    CanPatchMeans(m, a);
    StoreFrame(m, a, GdbStep.BP, 4, a);
    StoreFrame(m, a, GdbStep.BP, 4, Wrap(a + 3));
    StoreIsStoreWord(m, a, GdbStep.BP);
    LoadAfterStore(m, a, GdbStep.BP, a);
    hide Store, StoreWord, LoadWord, GdbStep.CanPatch;
  }

  /** No planted word is in the cache. */
  ghost predicate NoneCached(c: Cache, ps: seq<Word>)
    requires Shaped(c)
  {
    forall p :: p in ps ==> TagOf(p) != 0 && !Hit(c, p)
  }

  lemma StepCoherent(c: Cache, st0: GdbStep.Stub, s: Arch, i: Word, st: GdbStep.Stub)
    requires Coherent(c, s.mem, {}) && Steps(st0, s, i, st) && NoneCached(c, GdbStep.Plants(s.r, s.pc, i))
    ensures Coherent(c, st.mem, {})
  {
    hide TagOf, Hit, Coherent, GdbStep.Plants, GdbStep.Hoist, GdbStep.WholeWords;
    CoherentIsShaped(c, s.mem, {});
    var ps := GdbStep.Plants(s.r, s.pc, i);
    assert ps[0] in ps;
    HoistCoherent(c, s.mem, ps[0]);
    if |ps| == 2 {
      assert ps[1] in ps;
      HoistCoherent(c, GdbStep.Hoist(s.mem, ps[0]).mem, ps[1]);
    }
  }

  /** A single step on the cached machine: with the cache coherent before, no planted word in it, and
      the instruction, its slot and the break fetched from lines that are mapped and not stale, the
      program stops as it does without the cache. */
  lemma CachedSingleStep(c: Cache, st0: GdbStep.Stub, s: Arch, i: Word, st: GdbStep.Stub, s2: Arch)
    requires Shaped(c) && Coherent(c, s.mem, {}) && NoneCached(c, GdbStep.Plants(s.r, s.pc, i))
    requires Steps(st0, s, i, st) && PlainStep(s, i, s2) && AvoidsRun(Turns(i), s, GdbStep.Live(st)) && Covered(i)
    requires Disciplined(Turns(i) + 2, s.(mem := st.mem), {})
    ensures StopsAt(st, s2, Architectural(RunCached(Turns(i) + 2, s.(mem := st.mem), c)))
  {
    hide Coherent, NoneCached, Steps, PlainStep, AvoidsRun, Covered, Disciplined, StopsAt;
    hide RunCached, RunDirect, GdbStep.Plants;
    StepCoherent(c, st0, s, i, st);
    SingleStepIsOneStep(st0, s, i, st, s2);
    CachedRefinesDirect(Turns(i) + 2, s.(mem := st.mem), c, {});
  }
}
