/** Breakpoints are undone exactly, and a single step stops where the program goes. */
module GdbTheorems {
  import opened Words
  import opened Memory
  import opened Cpu
  import opened GdbStep

  // ---------------------------------------------------------------------------
  // The algebra of stores

  lemma SameMemory(m: Mem, m': Mem)
    requires forall p: Word :: (p in m <==> p in m') && At(m, p) == At(m', p)
    ensures m == m'
  {
    forall p: Word
      ensures p in m ==> p in m' && m[p] == m'[p]
      ensures p in m' ==> p in m
    {
      assert At(m, p) == At(m', p);
    }
    assert m.Keys == m'.Keys;
  }

  /** Whether a store succeeds depends on which bytes are mapped only. */
  lemma SameDomainSameStore(m: Mem, m': Mem, a: Word, v: Word, w: Word, c: nat)
    requires c == 1 || c == 2 || c == 4
    requires m.Keys == m'.Keys
    ensures Store(m, a, v, c).Stored? == Store(m', a, w, c).Stored?
    ensures CanPatch(m, a) == CanPatch(m', a)
  {
    assert forall p: Word :: p in m <==> p in m';
  }

  /** In a memory of whole words, a store maps nothing new. */
  lemma StoreDomain(m: Mem, a: Word, v: Word, c: nat)
    requires c == 1 || c == 2 || c == 4
    requires WholeWords(m) && Store(m, a, v, c).Stored?
    ensures Store(m, a, v, c).mem.Keys == m.Keys && WholeWords(Store(m, a, v, c).mem)
  {
    hide Store, WordBase;
    var m' := Store(m, a, v, c).mem;
    forall p: Word
      ensures p in m' <==> p in m
    {
      StoreFrame(m, a, v, c, p);
      if a <= p < a + c {
        StoredAligned(m, a, v, c);
        UnitInWord(a, c, p);
      }
    }
    assert m'.Keys == m.Keys;
  }

  lemma StoredAligned(m: Mem, a: Word, v: Word, c: nat)
    requires c == 1 || c == 2 || c == 4
    requires Store(m, a, v, c).Stored?
    ensures a in m && a % c == 0
  {
  }

  /** The bytes a store writes do not depend on the memory. */
  lemma StoredByte(m: Mem, m': Mem, a: Word, v: Word, c: nat, p: Word)
    requires c == 1 || c == 2 || c == 4
    requires Store(m, a, v, c).Stored? && Store(m', a, v, c).Stored?
    requires a <= p < a + c
    ensures At(Store(m, a, v, c).mem, p) == At(Store(m', a, v, c).mem, p)
  {
    hide ByteOf;
  }

  lemma StoresCommute(m: Mem, a: Word, v: Word, c: nat, b: Word, w: Word)
    requires c == 1 || c == 2 || c == 4
    requires WholeWords(m) && WordBase(a) != WordBase(b)
    requires Store(m, a, v, c).Stored? && Store(m, b, w, 4).Stored?
    ensures Store(Store(m, a, v, c).mem, b, w, 4).Stored? && Store(Store(m, b, w, 4).mem, a, v, c).Stored?
    ensures Store(Store(m, a, v, c).mem, b, w, 4) == Store(Store(m, b, w, 4).mem, a, v, c)
  {
    hide Store, WordBase, CanPatch;
    var ma, mb := Store(m, a, v, c).mem, Store(m, b, w, 4).mem;
    StoreDomain(m, a, v, c);
    StoreDomain(m, b, w, 4);
    SameDomainSameStore(m, ma, b, w, w, 4);
    SameDomainSameStore(m, mb, a, v, v, c);
    var mab, mba := Store(ma, b, w, 4).mem, Store(mb, a, v, c).mem;
    StoreDomain(ma, b, w, 4);
    StoreDomain(mb, a, v, c);
    StoredAligned(m, a, v, c);
    StoredAligned(m, b, w, 4);
    forall p: Word
      ensures (p in mab <==> p in mba) && At(mab, p) == At(mba, p)
    {
      StoreFrame(m, a, v, c, p);
      StoreFrame(m, b, w, 4, p);
      StoreFrame(ma, b, w, 4, p);
      StoreFrame(mb, a, v, c, p);
      if a <= p < a + c {
        UnitInWord(a, c, p);
        StoredByte(m, mb, a, v, c, p);
      }
      if b <= p < b + 4 {
        UnitInWord(b, 4, p);
        StoredByte(m, ma, b, w, 4, p);
      }
    }
    SameMemory(mab, mba);
  }

  lemma StoreTwice(m: Mem, a: Word, v: Word, w: Word)
    requires WholeWords(m) && Store(m, a, v, 4).Stored?
    ensures Store(Store(m, a, v, 4).mem, a, w, 4) == Store(m, a, w, 4)
    ensures Store(m, a, w, 4).Stored?
  {
    hide Store, WordBase, CanPatch;
    var m1 := Store(m, a, v, 4).mem;
    StoreDomain(m, a, v, 4);
    SameDomainSameStore(m, m1, a, v, w, 4);
    SameDomainSameStore(m, m, a, v, w, 4);
    StoreDomain(m, a, w, 4);
    StoreDomain(m1, a, w, 4);
    var m2, m3 := Store(m1, a, w, 4).mem, Store(m, a, w, 4).mem;
    forall p: Word
      ensures (p in m2 <==> p in m3) && At(m2, p) == At(m3, p)
    {
      StoreFrame(m, a, v, 4, p);
      StoreFrame(m1, a, w, 4, p);
      StoreFrame(m, a, w, 4, p);
      if a <= p < a + 4 {
        StoredByte(m, m1, a, w, 4, p);
      }
    }
    SameMemory(m2, m3);
  }

  /** Storing a word where it was loaded changes nothing. */
  lemma StoreOwn(m: Mem, a: Word)
    requires WholeWords(m) && CanPatch(m, a)
    ensures Store(m, a, LoadWord(m, a), 4) == Stored(m)
  {
    var w := LoadWord(m, a);
    SameDomainSameStore(m, m, a, 0, w, 4);
    StoreDomain(m, a, w, 4);
    var m' := Store(m, a, w, 4).mem;
    assert m' == StoreWord(m, a, w);
    BytesJoin(At(m, a), At(m, a + 1), At(m, a + 2), At(m, a + 3));
    hide Store, ByteOf, LoadWord, Join, StoreWord, CanPatch;
    forall p: Word
      ensures (p in m' <==> p in m) && At(m', p) == At(m, p)
    {
      StoreWordBytes(m, a, w, p);
    }
    SameMemory(m', m);
  }

  // ---------------------------------------------------------------------------
  // Hoisting and putting back

  ghost predicate Patchable(m: Mem, ps: seq<Saved>) {
    WholeWords(m) && forall k :: 0 <= k < |ps| ==> CanPatch(m, ps[k].addr)
  }

  ghost predicate Clear(ps: seq<Saved>, a: Word) {
    forall k :: 0 <= k < |ps| ==> ps[k].addr != WordBase(a)
  }

  lemma CanPatchMeans(m: Mem, a: Word)
    requires CanPatch(m, a)
    ensures a % 4 == 0 && WordBase(a) == a && Mapped(m, a, 4)
    ensures Load(m, a, 4, false) == Value(LoadWord(m, a)) && Load(m, a, 4, true) == Value(LoadWord(m, a))
  {
    WordOfWord(a);
  }

  lemma CanStore(m: Mem, a: Word, v: Word)
    requires CanPatch(m, a)
    ensures Store(m, a, v, 4).Stored?
  {
    SameDomainSameStore(m, m, a, 0, v, 4);
  }

  /** What is planted is the break instruction with code 0. */
  lemma HoistPlants(m: Mem, a: Word)
    requires Hoist(m, a).Hoisted?
    ensures a % 4 == 0 && LoadWord(Hoist(m, a).mem, a) == 0x0000_000D && Hoist(m, a).saved == Saved(a, LoadWord(m, a))
  {
    LoadAfterStore(m, a, BP, a);
    hide LoadWord, StoreWord;
  }

  lemma HoistMeans(m: Mem, a: Word)
    requires Hoist(m, a).Hoisted?
    ensures CanPatch(m, a) && Hoist(m, a).saved == Saved(a, LoadWord(m, a))
    ensures Stored(Hoist(m, a).mem) == Store(m, a, BP, 4)
  {
    SameDomainSameStore(m, m, a, 0, BP, 4);
    CanPatchMeans(m, a);
    hide Store, Load, LoadWord;
  }

  lemma {:induction false} PutBackWorks(m: Mem, ps: seq<Saved>)
    requires Patchable(m, ps)
    ensures PutBack(m, ps).Stored? && PutBack(m, ps).mem.Keys == m.Keys && WholeWords(PutBack(m, ps).mem)
    decreases |ps|
  {
    hide Store, CanPatch, WholeWords;
    if ps != [] {
      var p := ps[0];
      CanStore(m, p.addr, p.val);
      StoreDomain(m, p.addr, p.val, 4);
      SamePatchable(m, Store(m, p.addr, p.val, 4).mem, ps[1..]);
      PutBackWorks(Store(m, p.addr, p.val, 4).mem, ps[1..]);
    }
  }

  lemma SamePatchable(m: Mem, m': Mem, ps: seq<Saved>)
    requires WholeWords(m') && m.Keys == m'.Keys
    requires forall k :: 0 <= k < |ps| ==> CanPatch(m, ps[k].addr)
    ensures Patchable(m', ps)
  {
    hide CanPatch, WholeWords;
    forall k | 0 <= k < |ps|
      ensures CanPatch(m', ps[k].addr)
    {
      SameDomainSameStore(m, m', ps[k].addr, 0, 0, 4);
    }
  }

  /** Putting words back commutes with a store elsewhere. */
  lemma {:induction false} PutBackCommutes(m: Mem, ps: seq<Saved>, a: Word, v: Word, c: nat)
    requires c == 1 || c == 2 || c == 4
    requires Patchable(m, ps) && Clear(ps, a) && Store(m, a, v, c).Stored?
    ensures PutBack(m, ps).Stored? && Store(PutBack(m, ps).mem, a, v, c).Stored?
    ensures PutBack(Store(m, a, v, c).mem, ps) == Store(PutBack(m, ps).mem, a, v, c)
    decreases |ps|
  {
    hide Store, CanPatch, WholeWords, WordBase;
    PutBackWorks(m, ps);
    if ps != [] {
      var p := ps[0];
      CanStore(m, p.addr, p.val);
      CanPatchMeans(m, p.addr);
      StoresCommute(m, a, v, c, p.addr, p.val);
      StoreDomain(m, p.addr, p.val, 4);
      SamePatchable(m, Store(m, p.addr, p.val, 4).mem, ps[1..]);
      PutBackCommutes(Store(m, p.addr, p.val, 4).mem, ps[1..], a, v, c);
    }
  }

  lemma {:induction false} PutBackLast(m: Mem, ps: seq<Saved>, p: Saved)
    ensures PutBack(m, ps + [p]) == if PutBack(m, ps).Stored? then PutBack(PutBack(m, ps).mem, [p]) else PutBack(m, ps)
    decreases |ps|
  {
    hide Store;
    if ps == [] {
      assert [] + [p] == [p];
    } else {
      assert (ps + [p])[1..] == ps[1..] + [p];
      match Store(m, ps[0].addr, ps[0].val, 4)
      case StoreFault(_) =>
      case Stored(m') => PutBackLast(m', ps[1..], p);
    }
  }

  lemma {:induction false} PutBackKeepsWord(m: Mem, ps: seq<Saved>, a: Word)
    requires Patchable(m, ps) && a % 4 == 0 && Clear(ps, a)
    ensures PutBack(m, ps).Stored? && LoadWord(PutBack(m, ps).mem, a) == LoadWord(m, a)
    decreases |ps|
  {
    hide Store, CanPatch, WholeWords, WordBase, LoadWord;
    if ps != [] {
      var p := ps[0];
      CanStore(m, p.addr, p.val);
      var m' := Store(m, p.addr, p.val, 4).mem;
      CanPatchMeans(m, p.addr);
      WordOfWord(a);
      StoreDomain(m, p.addr, p.val, 4);
      SamePatchable(m, m', ps[1..]);
      StoreIsStoreWord(m, p.addr, p.val);
      LoadAfterStore(m, p.addr, p.val, a);
      PutBackKeepsWord(m', ps[1..], a);
    }
  }

  lemma StoreIsStoreWord(m: Mem, a: Word, v: Word)
    requires Store(m, a, v, 4).Stored?
    ensures a % 4 == 0 && Store(m, a, v, 4).mem == StoreWord(m, a, v)
  {
  }

  lemma StoreKeepsBreak(m: Mem, p: Word, a: Word, v: Word, c: nat)
    requires c == 1 || c == 2 || c == 4
    requires WholeWords(m) && CanPatch(m, p) && p != WordBase(a) && Store(m, a, v, c).Stored?
    ensures CanPatch(Store(m, a, v, c).mem, p) && LoadWord(Store(m, a, v, c).mem, p) == LoadWord(m, p)
  {
    CanPatchMeans(m, p);
    hide Store, CanPatch, WholeWords, WordBase, LoadWord;
    var m' := Store(m, a, v, c).mem;
    StoreDomain(m, a, v, c);
    SameDomainSameStore(m, m', p, 0, 0, 4);
    StoreKeepsOtherWords(m, a, v, c, p);
  }

  lemma StoreKeepsBreaks(m: Mem, ps: seq<Saved>, a: Word, v: Word, c: nat)
    requires c == 1 || c == 2 || c == 4
    requires WholeWords(m) && BreaksAt(m, ps) && Clear(ps, a) && Store(m, a, v, c).Stored?
    ensures BreaksAt(Store(m, a, v, c).mem, ps)
  {
    hide Store, WholeWords, WordBase, LoadWord;
    forall k | 0 <= k < |ps|
      ensures CanPatch(Store(m, a, v, c).mem, ps[k].addr) && LoadWord(Store(m, a, v, c).mem, ps[k].addr) == BP
    {
      StoreKeepsBreak(m, ps[k].addr, a, v, c);
    }
  }

  lemma HoistBreaks(m: Mem, ps: seq<Saved>, a: Word)
    requires WholeWords(m) && BreaksAt(m, ps) && Clear(ps, a) && Hoist(m, a).Hoisted?
    ensures BreaksAt(Hoist(m, a).mem, ps + [Hoist(m, a).saved])
  {
    hide Store, CanPatch, WholeWords, WordBase, LoadWord, Hoist;
    HoistMeans(m, a);
    CanPatchMeans(m, a);
    StoreKeepsBreaks(m, ps, a, BP, 4);
    StoreIsStoreWord(m, a, BP);
    LoadAfterStore(m, a, BP, a);
    StoreDomain(m, a, BP, 4);
    SameDomainSameStore(m, Hoist(m, a).mem, a, 0, 0, 4);
  }

  /** Hoisting one more word is undone by putting it back last. */
  lemma HoistUndone(m: Mem, ps: seq<Saved>, a: Word)
    requires Patchable(m, ps) && Clear(ps, a) && Hoist(m, a).Hoisted?
    ensures var h := Hoist(m, a);
            Patchable(h.mem, ps + [h.saved]) && h.mem.Keys == m.Keys && h.saved.addr == a &&
            PutBack(h.mem, ps + [h.saved]) == PutBack(m, ps)
  {
    hide Store, CanPatch, WholeWords, WordBase, LoadWord, Hoist;
    HoistMeans(m, a);
    CanPatchMeans(m, a);
    var h := Hoist(m, a);
    var v := LoadWord(m, a);
    StoreDomain(m, a, BP, 4);
    SamePatchable(m, h.mem, ps + [h.saved]);
    PutBackLast(h.mem, ps, h.saved);
    PutBackCommutes(m, ps, a, BP, 4);
    PutBackWorks(m, ps);
    PutBackKeepsWord(m, ps, a);
    var u := PutBack(m, ps).mem;
    StoreTwice(u, a, BP, v);
    SameDomainSameStore(m, u, a, 0, 0, 4);
    StoreOwn(u, a);
    OneBack(Store(u, a, BP, 4).mem, h.saved);
  }

  lemma OneBack(m: Mem, p: Saved)
    ensures PutBack(m, [p]) == Store(m, p.addr, p.val, 4)
  {
    hide Store;
    assert [p][1..] == [];
    match Store(m, p.addr, p.val, 4)
    case StoreFault(_) =>
    case Stored(m') => assert PutBack(m', []) == Stored(m');
  }

  // ---------------------------------------------------------------------------
  // Runs

  /** Between visits to the handler, undoing works, frees every slot, and keeps what is mapped. */
  lemma UndoWorks(st: Stub)
    requires Ready(st)
    ensures PutBack(st.mem, Live(st)).Stored? && Undo(st) == Fine(Freed(st, PutBack(st.mem, Live(st)).mem))
    ensures WholeWords(Undo(st).s.mem) && AllFree(Undo(st).s)
  {
    PutBackWorks(st.mem, Live(st));
    hide PutBack;
  }

  lemma FreeIsReady(st: Stub)
    requires WholeWords(st.mem) && AllFree(st)
    ensures Ready(st) && Undo(st) == Fine(st)
  {
    hide WholeWords;
    assert Live(st) == [];
    assert PutBack(st.mem, []) == Stored(st.mem);
  }

  lemma ProgramStoreUndone(st: Stub, a: Word, v: Word, c: nat)
    requires c == 1 || c == 2 || c == 4
    requires Ready(st) && !Planted(st, a) && Store(st.mem, a, v, c).Stored?
    ensures var st' := st.(mem := Store(st.mem, a, v, c).mem);
            Ready(st') && Undo(st).Fine? && Undo(st').Fine? &&
            Store(Undo(st).s.mem, a, v, c) == Stored(Undo(st').s.mem)
  {
    hide Store, CanPatch, WholeWords, WordBase;
    var st' := st.(mem := Store(st.mem, a, v, c).mem);
    StoreDomain(st.mem, a, v, c);
    assert Live(st') == Live(st);
    assert Clear(Live(st), a);
    StoreKeepsBreaks(st.mem, Live(st), a, v, c);
    SamePatchable(st.mem, st'.mem, Live(st));
    UndoWorks(st);
    UndoWorks(st');
    PutBackCommutes(st.mem, Live(st), a, v, c);
  }

  lemma InterruptUndone(st: Stub, epc: Word)
    requires Ready(st) && st.async.addr == 0 && epc != 0 && !Planted(st, epc) && SetAsync(st, epc).Fine?
    ensures var st' := SetAsync(st, epc).s;
            Ready(st') && Undo(st).Fine? && Undo(st').Fine? && Undo(st').s.mem == Undo(st).s.mem
  {
    hide CanPatch, WholeWords, WordBase, Hoist, LoadWord, PutBack;
    var st', l := SetAsync(st, epc).s, Live(st);
    HoistMeans(st.mem, epc);
    CanPatchMeans(st.mem, epc);
    assert Clear(l, epc);
    HoistUndone(st.mem, l, epc);
    HoistBreaks(st.mem, l, epc);
    OneMoreLive(st, st', epc);
    UndoWorks(st);
    UndoWorks(st');
  }

  /** One more live slot, at an address that was not planted. */
  lemma OneMoreLive(st: Stub, st': Stub, a: Word)
    requires st.async.addr == 0 && st'.async.addr == a != 0 && WordBase(a) == a && !Planted(st, a)
    requires st'.step0 == st.step0 && st'.step1 == st.step1
    requires forall j, k :: 0 <= j < k < |Live(st)| ==> Live(st)[j].addr != Live(st)[k].addr
    ensures Live(st') == Live(st) + [st'.async]
    ensures forall j, k :: 0 <= j < k < |Live(st')| ==> Live(st')[j].addr != Live(st')[k].addr
  {
    hide WordBase;
    assert Live(st') == Live(st) + [st'.async];
  }

  lemma NothingLive(m: Mem)
    ensures PutBack(m, []) == Stored(m)
  {
  }

  /** Two hoisted words are put back in order. */
  lemma TwoHoisted(m: Mem, a: Word, b: Word)
    requires WholeWords(m) && a != b && Hoist(m, a).Hoisted? && Hoist(Hoist(m, a).mem, b).Hoisted?
    ensures var h0 := Hoist(m, a);
            var h1 := Hoist(h0.mem, b);
            WholeWords(h1.mem) && BreaksAt(h1.mem, [h0.saved, h1.saved]) &&
            h0.saved.addr == a && h1.saved.addr == b && PutBack(h1.mem, [h0.saved, h1.saved]) == Stored(m)
  {
    hide CanPatch, WholeWords, WordBase, Hoist, LoadWord, PutBack;
    OneHoisted(m, a);
    var h0 := Hoist(m, a);
    var h1 := Hoist(h0.mem, b);
    HoistMeans(h0.mem, b);
    CanPatchMeans(h0.mem, b);
    HoistUndone(h0.mem, [h0.saved], b);
    HoistBreaks(h0.mem, [h0.saved], b);
    assert [h0.saved] + [h1.saved] == [h0.saved, h1.saved];
  }

  lemma OneHoisted(m: Mem, a: Word)
    requires WholeWords(m) && Hoist(m, a).Hoisted?
    ensures var h := Hoist(m, a);
            Patchable(h.mem, [h.saved]) && BreaksAt(h.mem, [h.saved]) &&
            h.saved.addr == a && PutBack(h.mem, [h.saved]) == Stored(m)
  {
    hide CanPatch, WholeWords, WordBase, Hoist, LoadWord, PutBack;
    HoistUndone(m, [], a);
    HoistBreaks(m, [], a);
    assert [] + [Hoist(m, a).saved] == [Hoist(m, a).saved];
    NothingLive(m);
  }

  /** Planting from free slots is undone by the next visit. */
  lemma PlantUndone(st: Stub, ps: seq<Word>)
    requires WholeWords(st.mem) && AllFree(st)
    requires 1 <= |ps| <= 2 && 0 !in ps && (|ps| == 2 ==> ps[0] != ps[1]) && PlantAll(st, ps).Fine?
    ensures var st' := PlantAll(st, ps).s;
            Ready(st') && Undo(st').Fine? && Undo(st').s.mem == st.mem
  {
    hide CanPatch, WholeWords, Hoist, LoadWord, PutBack;
    var st' := PlantAll(st, ps).s;
    var h0 := Hoist(st.mem, ps[0]);
    assert ps[0] in ps;
    OneHoisted(st.mem, ps[0]);
    if |ps| == 2 {
      assert ps[1] in ps;
      TwoHoisted(st.mem, ps[0], ps[1]);
      assert Live(st') == [h0.saved, Hoist(h0.mem, ps[1]).saved];
    } else {
      assert Live(st') == [h0.saved];
    }
    UndoWorks(st');
  }

  lemma {:induction false} PokesKeepWords(m: Mem, ks: seq<Poke>)
    requires WholeWords(m) && PokeAll(m, ks).Stored?
    ensures WholeWords(PokeAll(m, ks).mem)
    decreases |ks|
  {
    hide Store, WholeWords;
    if ks != [] {
      StoreDomain(m, ks[0].addr, ks[0].val, 1);
      PokesKeepWords(Store(m, ks[0].addr, ks[0].val, 1).mem, ks[1..]);
    }
  }

  lemma ExceptionUndone(st: Stub, cause: Word, ks: seq<Poke>, resume: Resume)
    requires Ready(st) && !FpuTrap(cause) && Handle(st, cause, ks, resume).Fine?
    requires Allowed(Exception(cause, ks, resume), st)
    ensures var st' := Handle(st, cause, ks, resume).s;
            Ready(st') && Undo(st).Fine? && Undo(st').Fine? &&
            PokeAll(Undo(st).s.mem, ks) == Stored(Undo(st').s.mem) &&
            (resume.Continue? ==> AllFree(st') && st'.mem == Undo(st').s.mem)
  {
    hide Ready, WholeWords, Undo, PokeAll, FpuTrap, Plants, PlantAll, Load;
    UndoWorks(st);
    var st1 := Undo(st).s;
    PokesKeepWords(st1.mem, ks);
    var st2 := Poked(st1, ks).s;
    match resume
    case Continue => FreeIsReady(st2);
    case StepFrom(r, epc) =>
      var i := Load(st2.mem, epc, 4, false).w;
      PlantUndone(st2, Plants(r, epc, i));
  }

  lemma EventUndone(e: Event, st: Stub)
    requires WellFormed(e) && Ready(st) && Allowed(e, st) && Apply(e, st).Fine?
    ensures var st' := Apply(e, st).s;
            Ready(st') && Undo(st).Fine? && Undo(st').Fine? && ApplyPlain(e, Undo(st).s.mem) == Stored(Undo(st').s.mem)
  {
    hide Ready, Undo, Planted, FpuTrap, PokeAll, SetAsync, Store;
    match e
    case ProgramStore(a, v, c) => ProgramStoreUndone(st, a, v, c);
    case Interrupt(epc) => InterruptUndone(st, epc);
    case Exception(cause, ks, resume) =>
      if FpuTrap(cause) {
        UndoWorks(st);
      } else {
        ExceptionUndone(st, cause, ks, resume);
      }
  }

  /** Over any alternation of interrupts, program stores and visits to the handler, undoing the
      breakpoints gives the memory of a run in which none was ever planted. */
  lemma {:induction false} BreakpointsAreUndone(es: seq<Event>, st: Stub)
    requires AllWellFormed(es) && Ready(st) && AllAllowed(es, st) && RunEvents(es, st).Fine?
    ensures var st' := RunEvents(es, st).s;
            Ready(st') && Undo(st).Fine? && Undo(st').Fine? &&
            RunPlain(es, Undo(st).s.mem) == Stored(Undo(st').s.mem) && AllFree(Undo(st').s)
    decreases |es|
  {
    hide Ready, Undo, Allowed, Apply, ApplyPlain, AllFree;
    UndoWorks(st);
    if es != [] {
      EventUndone(es[0], st);
      BreakpointsAreUndone(es[1..], Apply(es[0], st).s);
    }
  }

  /** The byte at p after the debugger's writes: that of the last write there, or the old one. */
  function LastWritten(ks: seq<Poke>, p: Word, was: Byte): Byte
    decreases |ks|
  {
    if ks == [] then was else LastWritten(ks[1..], p, if ks[0].addr == p then ks[0].val else was)
  }

  lemma {:induction false} PokesWrite(m: Mem, ks: seq<Poke>, p: Word)
    requires PokeAll(m, ks).Stored?
    ensures At(PokeAll(m, ks).mem, p) == LastWritten(ks, p, At(m, p))
    decreases |ks|
  {
    if ks != [] {
      PokesWrite(Store(m, ks[0].addr, ks[0].val, 1).mem, ks[1..], p);
    }
  }

  /** The fields of the cause register: the exception code is in bits 2 to 6, the coprocessor unit in
      bits 28 and 29. */
  datatype CauseFields = CauseFields(high: nat, unit: nat, pending: nat, code: nat, low: nat)

  predicate InFields(f: CauseFields) {
    f.high < 4 && f.unit < 4 && f.pending < 0x20_0000 && f.code < 32 && f.low < 4
  }

  function CauseWord(f: CauseFields): Word
    requires InFields(f)
  {
    f.high * 0x4000_0000 + f.unit * 0x1000_0000 + f.pending * 0x80 + f.code * 4 + f.low
  }

  /** Every word is a cause. */
  lemma EveryCause(cause: Word) returns (f: CauseFields)
    ensures InFields(f) && CauseWord(f) == cause
  {
    var q, r := cause / 0x1000_0000, cause % 0x1000_0000;
    var p, t := r / 0x80, r % 0x80;
    f := CauseFields(q / 4, q % 4, p, t / 4, t % 4);
  }

  /** The handler returns at once for code 11 with unit 1, and for no other cause. */
  lemma WhichTrap(f: CauseFields)
    requires InFields(f)
    ensures FpuTrap(CauseWord(f)) <==> f.code == 11 && f.unit == 1
  {
    var cause := CauseWord(f);
    DivModUnique(cause, 4, f.high * 0x1000_0000 + f.unit * 0x400_0000 + f.pending * 0x20 + f.code, f.low);
    DivModUnique(cause / 4, 32, f.high * 0x80_0000 + f.unit * 0x20_0000 + f.pending, f.code);
    DivModUnique(cause, 0x1000_0000, f.high * 4 + f.unit, f.pending * 0x80 + f.code * 4 + f.low);
    DivModUnique(cause / 0x1000_0000, 4, f.high, f.unit);
  }

  /** A floating-point trap leaves the stub and memory as they are. */
  lemma FpuTrapLeaves(st: Stub, f: CauseFields, ks: seq<Poke>, resume: Resume)
    requires InFields(f) && f.code == 11 && f.unit == 1
    ensures Handle(st, CauseWord(f), ks, resume) == Fine(st)
  {
    hide FpuTrap, CauseWord;
    WhichTrap(f);
  }

  /** The cause of a BREAK, in a delay slot or not, whatever is pending: every visit begins by
      putting the words back. */
  lemma BreakUndoes(st: Stub, f: CauseFields, ks: seq<Poke>, resume: Resume)
    requires InFields(f) && f.code == 9
    ensures Handle(st, CauseWord(f), ks, resume) ==
            match Undo(st)
            case Crash(why) => Crash(why)
            case Fine(st1) =>
              match Poked(st1, ks)
              case Crash(why) => Crash(why)
              case Fine(st2) => Resumed(st2, resume)
  {
    hide FpuTrap, CauseWord, Undo, Poked, Resumed;
    WhichTrap(f);
  }

  /** In particular, after a visit that lets the program go on, memory is exactly that memory and
      every slot is free. */
  lemma RestoredAtContinue(es: seq<Event>, st: Stub, cause: Word, f: CauseFields, ks: seq<Poke>)
    requires WholeWords(st.mem) && AllFree(st)
    requires InFields(f) && cause == CauseWord(f) && (f.code != 11 || f.unit != 1)
    requires AllWellFormed(es + [Exception(cause, ks, Continue)]) && AllWellFormed(es)
    requires AllAllowed(es, st) && RunEvents(es, st).Fine? && Handle(RunEvents(es, st).s, cause, ks, Continue).Fine?
    ensures var st' := Handle(RunEvents(es, st).s, cause, ks, Continue).s;
            AllFree(st') && RunPlain(es, st.mem).Stored? && PokeAll(RunPlain(es, st.mem).mem, ks) == Stored(st'.mem)
  {
    hide Ready, Undo, RunEvents, RunPlain, AllAllowed, PokeAll, FpuTrap, AllFree, Handle, WholeWords;
    WhichTrap(f);
    FreeIsReady(st);
    BreakpointsAreUndone(es, st);
    ExceptionUndone(RunEvents(es, st).s, cause, ks, Continue);
  }

  // ---------------------------------------------------------------------------
  // When a breakpoint is not undone

  lemma NoneAtTop(m: Mem, a: Word)
    requires Load(m, a, 4, false).Value?
    ensures Wrap(a + 8) != 0
  {
    if a >= 0xFF00_0000 {
      DivModUnique(a, 0x100_0000, 0xFF, a - 0xFF00_0000);
    }
    WrapOnce(a + 8);
  }

  /** A single step is undone by the next visit exactly when it plants nothing at address 0, or the
      word there is a break already. */
  lemma StepUndoneIff(st: Stub, r: Regs, epc: Word)
    requires WholeWords(st.mem) && AllFree(st) && SingleStep(st, r, epc).Fine?
    ensures Load(st.mem, epc, 4, false).Value? && Undo(SingleStep(st, r, epc).s).Fine?
    ensures var ps := Plants(r, epc, Load(st.mem, epc, 4, false).w);
            Undo(SingleStep(st, r, epc).s).s.mem == st.mem <==> 0 !in ps || LoadWord(st.mem, 0) == BP
  {
    hide WholeWords, Undo, PlantAll, Plants, Load, LoadWord, CanPatch, Wrap;
    var ps := Plants(r, epc, Load(st.mem, epc, 4, false).w);
    NoneAtTop(st.mem, epc);
    if 0 !in ps {
      PlantUndone(st, ps);
    } else {
      PlantedAtZero(st, ps);
    }
  }

  /** The slot that holds address 0 looks free: its word is not put back. */
  lemma PlantedAtZero(st: Stub, ps: seq<Word>)
    requires WholeWords(st.mem) && AllFree(st) && PlantsAtZero(ps) && PlantAll(st, ps).Fine?
    ensures var u := Undo(PlantAll(st, ps).s);
            u.Fine? && (u.s.mem == st.mem <==> LoadWord(st.mem, 0) == BP)
  {
    hide WholeWords, CanPatch, WordBase, Hoist, LoadWord;
    var st' := PlantAll(st, ps).s;
    var h0 := Hoist(st.mem, ps[0]);
    HoistMeans(st.mem, ps[0]);
    assert PutBack(st.mem, []) == Stored(st.mem);
    if |ps| == 1 {
      assert Live(st') == [];
      assert PutBack(st'.mem, []) == Stored(st'.mem);
      BreakStays(st.mem, 0);
    } else {
      CanPatchMeans(st.mem, ps[0]);
      HoistUndone(st.mem, [], ps[0]);
      assert [] + [h0.saved] == [h0.saved];
      HoistMeans(h0.mem, 0);
      CanPatchMeans(h0.mem, 0);
      PutBackCommutes(h0.mem, [h0.saved], 0, BP, 4);
      assert Live(st') == [h0.saved];
      SameDomainSameStore(h0.mem, st.mem, 0, 0, 0, 4);
      BreakStays(st.mem, 0);
    }
  }

  predicate PlantsAtZero(ps: seq<Word>) {
    ps == [0] || (|ps| == 2 && ps[0] != 0 && ps[1] == 0)
  }

  lemma BreakStays(m: Mem, a: Word)
    requires WholeWords(m) && CanPatch(m, a)
    ensures a % 4 == 0 && Store(m, a, BP, 4).Stored? && (Store(m, a, BP, 4).mem == m <==> LoadWord(m, a) == BP)
  {
    CanPatchMeans(m, a);
    hide WholeWords, CanPatch, Store, LoadWord;
    StoreOwn(m, a);
    CanStore(m, a, BP);
    StoreIsStoreWord(m, a, BP);
    LoadAfterStore(m, a, BP, a);
  }

  /** The breakpoints of the single step only. */
  function StepSlots(st: Stub): (ps: seq<Saved>)
    ensures Live(st) == ps + if st.async.addr == 0 then [] else [st.async]
  {
    Live(st.(async := FREE))
  }

  /** What an interrupt must find for its breakpoint to be undone: the words of the program at a taken
      slot's address, at a planted address, and at address 0, must be breaks themselves. */
  ghost predicate InterruptUndoable(st: Stub, u: Mem, epc: Word)
    requires epc % 4 == 0 && st.async.addr % 4 == 0
  {
    (st.async.addr != 0 && st.async.addr != epc ==> LoadWord(u, st.async.addr) == BP) &&
    (epc == 0 || Planted(st, epc) ==> LoadWord(u, epc) == BP)
  }

  /** Where the words have been put back with the slot as it was before the interrupt, and with what
      the interrupt left in it; v is the memory with only the single step's words put back. */
  lemma StepsBack(st: Stub)
    requires Ready(st)
    ensures Patchable(st.mem, StepSlots(st)) && PutBack(st.mem, StepSlots(st)).Stored? && Undo(st).Fine?
    ensures WholeWords(PutBack(st.mem, StepSlots(st)).mem) && PutBack(st.mem, StepSlots(st)).mem.Keys == st.mem.Keys
    ensures var v := PutBack(st.mem, StepSlots(st)).mem;
            if st.async.addr == 0 then Undo(st).s.mem == v
            else Store(v, st.async.addr, st.async.val, 4) == Stored(Undo(st).s.mem)
  {
    hide WholeWords, CanPatch, LoadWord, Store, StepSlots;
    var l := StepSlots(st);
    forall k | 0 <= k < |l|
      ensures CanPatch(st.mem, l[k].addr)
    {
      assert Live(st)[k] == l[k];
    }
    UndoWorks(st);
    PutBackWorks(st.mem, l);
    if st.async.addr == 0 {
      assert Live(st) == l;
    } else {
      PutBackLast(st.mem, l, st.async);
      OneBack(PutBack(st.mem, l).mem, st.async);
    }
  }

  /** A taken slot's word is a break, and stays one while the single step's words are put back. */
  lemma SlotHolds(st: Stub)
    requires Ready(st) && st.async.addr != 0
    ensures CanPatch(st.mem, st.async.addr) && st.async.addr % 4 == 0 && Clear(StepSlots(st), st.async.addr)
    ensures PutBack(st.mem, StepSlots(st)).Stored?
    ensures LoadWord(st.mem, st.async.addr) == BP && LoadWord(PutBack(st.mem, StepSlots(st)).mem, st.async.addr) == BP
  {
    hide WholeWords, LoadWord, StepSlots;
    var l, a := StepSlots(st), st.async.addr;
    assert Live(st)[|l|] == st.async;
    CanPatchMeans(st.mem, a);
    forall k | 0 <= k < |l|
      ensures l[k].addr != WordBase(a)
    {
      assert Live(st)[k] == l[k];
    }
    StepsBack(st);
    PutBackKeepsWord(st.mem, l, a);
  }

  /** Where the interrupt plants: over a break, if the address is planted. */
  lemma InterruptPlants(st: Stub, epc: Word)
    requires Ready(st) && SetAsync(st, epc).Fine?
    ensures CanPatch(st.mem, epc) && epc % 4 == 0 && WordBase(epc) == epc
    ensures var st' := SetAsync(st, epc).s;
            Store(st.mem, epc, BP, 4) == Stored(st'.mem) &&
            st' == st.(mem := st'.mem, async := Saved(epc, LoadWord(st.mem, epc)))
    ensures Planted(st, epc) ==> SetAsync(st, epc).s.mem == st.mem && LoadWord(st.mem, epc) == BP
  {
    hide WholeWords, LoadWord, Hoist, WordBase, Store;
    HoistMeans(st.mem, epc);
    CanPatchMeans(st.mem, epc);
    if Planted(st, epc) {
      StoreOwn(st.mem, epc);
    }
  }

  /** What undoing gives after the interrupt: v if its address is fresh, and v with a break at its
      address if the address is planted or 0. */
  lemma InterruptBack(st: Stub, epc: Word)
    requires Ready(st) && SetAsync(st, epc).Fine? && PutBack(st.mem, StepSlots(st)).Stored?
    ensures Undo(SetAsync(st, epc).s).Fine?
    ensures var u', v := Undo(SetAsync(st, epc).s).s.mem, PutBack(st.mem, StepSlots(st)).mem;
            if epc == 0 || Planted(st, epc) then Store(v, epc, BP, 4) == Stored(u') else u' == v
  {
    hide WholeWords, CanPatch, LoadWord, Hoist, WordBase, Store;
    InterruptPlants(st, epc);
    StepsBack(st);
    var st', l := SetAsync(st, epc).s, StepSlots(st);
    assert StepSlots(st') == l;
    if epc == 0 {
      assert Live(st') == l;
      PutBackCommutes(st.mem, l, 0, BP, 4);
    } else if Planted(st, epc) {
      assert Live(st') == l + [Saved(epc, BP)];
      PutBackLast(st.mem, l, Saved(epc, BP));
      var v := PutBack(st.mem, l).mem;
      OneBack(v, Saved(epc, BP));
      SameDomainSameStore(st.mem, v, epc, 0, 0, 4);
      CanStore(v, epc, BP);
    } else {
      StepsUnplanted(st, epc);
      HoistUndone(st.mem, l, epc);
      assert Live(st') == l + [Hoist(st.mem, epc).saved];
    }
  }

  lemma StepsUnplanted(st: Stub, a: Word)
    requires !Planted(st, a)
    ensures Clear(StepSlots(st), a)
  {
    hide WordBase, StepSlots;
    forall k | 0 <= k < |StepSlots(st)|
      ensures StepSlots(st)[k].addr != WordBase(a)
    {
      assert Live(st)[k] == StepSlots(st)[k];
    }
  }

  /** Two stores into one memory, at different words of which the first holds a break, agree exactly
      when neither changes anything. */
  lemma StoresAgree(v: Mem, a: Word, x: Word, b: Word, u: Mem, w: Mem)
    requires WholeWords(v) && CanPatch(v, a) && CanPatch(v, b) && a != b && LoadWord(v, a) == BP
    requires Store(v, a, x, 4) == Stored(u) && Store(v, b, BP, 4) == Stored(w)
    ensures a % 4 == 0 && b % 4 == 0
    ensures w == u <==> LoadWord(u, a) == BP && LoadWord(u, b) == BP
  {
    CanPatchMeans(v, a);
    CanPatchMeans(v, b);
    hide WholeWords, CanPatch, LoadWord, Store;
    StoreIsStoreWord(v, a, x);
    StoreIsStoreWord(v, b, BP);
    LoadAfterStore(v, a, x, a);
    LoadAfterStore(v, a, x, b);
    LoadAfterStore(v, b, BP, a);
    LoadAfterStore(v, b, BP, b);
    StoreOwn(v, a);
    StoreOwn(v, b);
  }

  /** One store over a break agrees with none exactly when it stores a break. */
  lemma StoreOverBreak(v: Mem, a: Word, x: Word, u: Mem)
    requires WholeWords(v) && CanPatch(v, a) && a % 4 == 0 && LoadWord(v, a) == BP && Store(v, a, x, 4) == Stored(u)
    ensures v == u <==> LoadWord(u, a) == BP
  {
    hide WholeWords, CanPatch, LoadWord, Store;
    StoreIsStoreWord(v, a, x);
    LoadAfterStore(v, a, x, a);
    StoreOwn(v, a);
  }

  /** An interrupt is undone exactly when no break of the stub's own is left behind: not at the address
      of a slot that was taken already, which is forgotten, not at a planted address, whose break is
      saved and put back last, and not at address 0, which looks free. */
  lemma InterruptUndoneIff(st: Stub, epc: Word)
    requires Ready(st) && SetAsync(st, epc).Fine?
    ensures epc % 4 == 0 && st.async.addr % 4 == 0 && Undo(st).Fine? && Undo(SetAsync(st, epc).s).Fine?
    ensures Undo(SetAsync(st, epc).s).s.mem == Undo(st).s.mem <==> InterruptUndoable(st, Undo(st).s.mem, epc)
  {
    hide CanPatch, WholeWords, WordBase, LoadWord, Store, Undo, StepSlots, SetAsync, Ready;
    StepsBack(st);
    InterruptPlants(st, epc);
    InterruptBack(st, epc);
    var u, u', v := Undo(st).s.mem, Undo(SetAsync(st, epc).s).s.mem, PutBack(st.mem, StepSlots(st)).mem;
    SameDomainSameStore(st.mem, v, epc, 0, 0, 4);
    if st.async.addr == 0 {
      BreakStays(v, epc);
    } else {
      var a := st.async.addr;
      SlotHolds(st);
      SameDomainSameStore(st.mem, v, a, 0, 0, 4);
      if a == epc {
        SlotIsPlanted(st);
        StoreOwn(v, a);
        StoreOverBreak(v, a, st.async.val, u);
      } else if epc == 0 || Planted(st, epc) {
        StoresAgree(v, a, st.async.val, epc, u, u');
      } else {
        StoreOverBreak(v, a, st.async.val, u);
      }
    }
  }

  lemma SlotIsPlanted(st: Stub)
    requires st.async.addr != 0 && st.async.addr % 4 == 0
    ensures Planted(st, st.async.addr)
  {
    WordOfWord(st.async.addr);
    hide WordBase;
    assert Live(st)[|Live(st)| - 1] == st.async;
  }

  /** A store within a word is lost when the word is stored after it. */
  lemma StoreAbsorbed(m: Mem, a: Word, v: Word, c: nat, b: Word, w: Word)
    requires c == 1 || c == 2 || c == 4
    requires WholeWords(m) && Store(m, a, v, c).Stored? && CanPatch(m, b) && WordBase(a) == b
    ensures Store(Store(m, a, v, c).mem, b, w, 4) == Store(m, b, w, 4) && Store(m, b, w, 4).Stored?
  {
    CanPatchMeans(m, b);
    hide Store, WordBase, CanPatch;
    var m1 := Store(m, a, v, c).mem;
    StoreDomain(m, a, v, c);
    CanStore(m, b, w);
    SameDomainSameStore(m, m1, b, w, w, 4);
    StoreDomain(m, b, w, 4);
    StoreDomain(m1, b, w, 4);
    StoredAligned(m, a, v, c);
    var m2, m3 := Store(m1, b, w, 4).mem, Store(m, b, w, 4).mem;
    forall p: Word
      ensures (p in m2 <==> p in m3) && At(m2, p) == At(m3, p)
    {
      StoreFrame(m1, b, w, 4, p);
      StoreFrame(m, b, w, 4, p);
      if b <= p < b + 4 {
        StoredByte(m, m1, b, w, 4, p);
      } else {
        OutsideWord(b, p);
        StoreKeepsByte(m, a, v, c, p);
      }
    }
    SameMemory(m2, m3);
  }

  lemma OutsideWord(b: Word, p: Word)
    requires WordBase(b) == b && !(b <= p < b + 4)
    ensures WordBase(p) != b
  {
  }

  /** Putting back a planted word loses what was stored into it. */
  lemma {:induction false} PutBackAbsorbs(m: Mem, ps: seq<Saved>, a: Word, v: Word, c: nat)
    requires c == 1 || c == 2 || c == 4
    requires Patchable(m, ps) && !Clear(ps, a) && Store(m, a, v, c).Stored?
    ensures PutBack(Store(m, a, v, c).mem, ps) == PutBack(m, ps)
    decreases |ps|
  {
    hide Store, CanPatch, WholeWords, WordBase;
    var p := ps[0];
    CanStore(m, p.addr, p.val);
    CanPatchMeans(m, p.addr);
    if p.addr == WordBase(a) {
      StoreAbsorbed(m, a, v, c, p.addr, p.val);
    } else {
      StoresCommute(m, a, v, c, p.addr, p.val);
      StoreDomain(m, p.addr, p.val, 4);
      SamePatchable(m, Store(m, p.addr, p.val, 4).mem, ps[1..]);
      SameDomainSameStore(m, Store(m, p.addr, p.val, 4).mem, a, v, v, c);
      assert exists k :: 0 <= k < |ps[1..]| && ps[1..][k].addr == WordBase(a) by {
        var k :| 0 <= k < |ps| && ps[k].addr == WordBase(a);
        assert ps[1..][k - 1] == ps[k];
      }
      PutBackAbsorbs(Store(m, p.addr, p.val, 4).mem, ps[1..], a, v, c);
    }
  }

  /** A program store survives the restore exactly when its word is not planted, or already holds what
      is stored: a store into a planted word is lost, and with it the break. */
  lemma ProgramStoreUndoneIff(st: Stub, a: Word, v: Word, c: nat)
    requires c == 1 || c == 2 || c == 4
    requires Ready(st) && Store(st.mem, a, v, c).Stored?
    ensures Undo(st).Fine? && Store(Undo(st).s.mem, a, v, c).Stored?
    ensures var st' := st.(mem := Store(st.mem, a, v, c).mem);
            Undo(st').Fine? &&
            (Store(Undo(st).s.mem, a, v, c) == Stored(Undo(st').s.mem) <==>
             !Planted(st, a) || Store(Undo(st).s.mem, a, v, c) == Stored(Undo(st).s.mem))
  {
    hide Store, CanPatch, WholeWords, WordBase, PutBack, LoadWord;
    UndoWorks(st);
    PutBackWorks(st.mem, Live(st));
    SameDomainSameStore(st.mem, Undo(st).s.mem, a, v, v, c);
    var st' := st.(mem := Store(st.mem, a, v, c).mem);
    assert Live(st') == Live(st);
    if Planted(st, a) {
      PutBackAbsorbs(st.mem, Live(st), a, v, c);
    } else {
      ProgramStoreUndone(st, a, v, c);
    }
  }
}
