/** Making stored code visible: the loop that invalidates every line of an address range. */
module Flush {
  import opened Words
  import opened Memory
  import opened ICache
  import opened CacheTheorems
  import opened ICacheUnit

  /** The line size in bytes, which the program reads from hardware register 1. */
  const LINE_SIZE := 4 * LINE_WORDS

  /** Invalidations at p, p + 16, ... below end. */
  function FlushFrom(c: Cache, p: Word, end: Word): (c': Cache)
    requires Shaped(c) && end + LINE_SIZE <= 0x1_0000_0000
    ensures Shaped(c')
    decreases end - p
  {
    if p < end then FlushFrom(Synci(c, p), p + LINE_SIZE, end) else c
  }

  /** The loop's address after k rounds, in 32 bits. */
  function LoopAddress(p: Word, k: nat): Word {
    Wrap(p + LINE_SIZE * k)
  }

  /** The loop comes to its end exactly when the range ends a line below the top of the address space:
      above that, its address wraps to 0 before it has passed the end, and it goes on for ever. */
  lemma LoopEndsIff(p: Word, end: Word)
    requires p % LINE_SIZE == 0
    ensures (exists k: nat :: LoopAddress(p, k) >= end) <==> end + LINE_SIZE <= 0x1_0000_0000
  {
    if end + LINE_SIZE <= 0x1_0000_0000 {
      LineRange(p);
      var k := (0x1_0000_0000 - LINE_SIZE - p) / LINE_SIZE;
      DivModUnique(0x1_0000_0000 - LINE_SIZE - p, LINE_SIZE, 0x1000_0000 - 1 - p / LINE_SIZE, 0);
      WrapOnce(p + LINE_SIZE * k);
      assert LoopAddress(p, k) == 0x1_0000_0000 - LINE_SIZE;
    } else {
      forall k: nat
        ensures LoopAddress(p, k) < end
      {
        WrappedLine(p / LINE_SIZE + k);
      }
    }
  }

  lemma WrappedLine(line: nat)
    ensures Wrap(LINE_SIZE * line) <= 0x1_0000_0000 - LINE_SIZE
  {
    DivModUnique(LINE_SIZE * line, 0x1_0000_0000, line / 0x1000_0000, line % 0x1000_0000 * LINE_SIZE);
  }

  /** The range must end a line below the top of the address space, where the source's loop stops. */
  method FlushRange(ic: InstructionCache, location: Word, len: Word)
    requires ic.Valid() && location + len + LINE_SIZE <= 0x1_0000_0000
    modifies ic.tag
    ensures ic.Valid()
    ensures ic.Contents() == FlushFrom(old(ic.Contents()), LineBase(location), location + len)
  {
    ghost var c := ic.Contents();
    var end := location + len;
    var p: Word := LineBase(location);
    while p < end
      invariant FlushFrom(ic.Contents(), p, end) == FlushFrom(c, LineBase(location), end)
      decreases end - p
    {
      ic.Invalidate(p);
      p := p + LINE_SIZE;
    }
  }

  ghost predicate Aligned(ws: set<Word>) {
    forall p :: p in ws ==> p % 4 == 0
  }

  lemma CoherentWeaken(c: Cache, m: Mem, stale: set<Word>, more: set<Word>)
    requires Coherent(c, m, stale) && stale <= more
    ensures Coherent(c, m, more)
  {
    forall way: nat, line: nat, k: nat | way < WAYS && line < LINES && k < LINE_WORDS
      ensures WordCoherent(c, m, more, way, line, k)
    {
      assert WordCoherent(c, m, stale, way, line, k);
    }
  }

  function Outside(stale: set<Word>, p: Word, end: Word): set<Word> {
    set q | q in stale && !(p <= q < end)
  }

  /** After the loop no word of the range is stale. */
  lemma {:induction false} FlushRefreshes(c: Cache, m: Mem, stale: set<Word>, p: Word, end: Word)
    requires Coherent(c, m, stale) && Aligned(stale)
    requires p % LINE_SIZE == 0 && end + LINE_SIZE <= 0x1_0000_0000
    ensures Coherent(FlushFrom(c, p, end), m, Outside(stale, p, end))
    decreases end - p
  {
    if p < end {
      hide LineSet, LineBase;
      SynciRefreshes(c, m, stale, p);
      NextLine(p);
      FlushRefreshes(Synci(c, p), m, stale - LineSet(p), p + LINE_SIZE, end);
      OutsideStep(stale, p, end);
      CoherentWeaken(FlushFrom(c, p, end), m, Outside(stale - LineSet(p), p + LINE_SIZE, end), Outside(stale, p, end));
    } else {
      CoherentWeaken(c, m, stale, stale);
      assert Outside(stale, p, end) == stale;
    }
  }

  lemma OutsideStep(stale: set<Word>, p: Word, end: Word)
    requires Aligned(stale) && p % LINE_SIZE == 0 && p + LINE_SIZE < 0x1_0000_0000
    ensures Outside(stale - LineSet(p), p + LINE_SIZE, end) <= Outside(stale, p, end)
  {
    hide LineBase, LineSet;
    forall q | q in stale && q !in LineSet(p)
      ensures !(p <= q < p + LINE_SIZE)
    {
      if p <= q < p + LINE_SIZE {
        InLine(p, q - p);
        InLine(p, 0);
        InLineSet(p, q);
      }
    }
  }

  lemma NextLine(p: Word)
    requires p % 16 == 0
    ensures (p + 16) % 16 == 0
  {
    DivModUnique(p + 16, 16, p / 16 + 1, 0);
  }

  lemma {:induction false} StaleStaysAligned(stale: set<Word>, es: seq<Event>)
    requires Aligned(stale)
    ensures Aligned(StaleAfterAll(stale, es))
    decreases |es|
  {
    if es == [] {
    } else {
      StaleStaysAligned(StaleAfter(stale, es[0]), es[1..]);
    }
  }

  /** Whatever was fetched, stored and invalidated since reset, after the loop every fetch of a
      word of the range returns what memory held at that point, until the word is stored to. */
  lemma FlushMakesStoresVisible(m0: Mem, before: seq<Event>, location: Word, len: Word,
                                m: Mem, after: seq<Event>, a: Word)
    requires AllAllowed(m0, before) && m == MemAfterAll(m0, before)
    requires location + len + LINE_SIZE <= 0x1_0000_0000
    requires AllAllowed(m, after) && NeverStored(after, a)
    requires LineBase(location) <= a < location + len && a % 4 == 0
    requires TagOf(a) != 0 && LineMapped(MemAfterAll(m, after), a)
    ensures var c1 := CacheAfterAll(ResetCache(), m0, before);
            var c2 := FlushFrom(c1, LineBase(location), location + len);
            Fetch(CacheAfterAll(c2, m, after), MemAfterAll(m, after), a) == Value(LoadWord(m, a))
  {
    hide LineBase, LineSet, TagOf, LineOf, WordOf, LineMappedAt, LineAddress, LoadWord, Fetch;
    hide CacheAfterAll, MemAfterAll, StaleAfterAll, FlushFrom;
    var c1, stale1 := CacheAfterAll(ResetCache(), m0, before), StaleAfterAll({}, before);
    ResetIsCoherent(m0);
    EventsKeepCoherent(ResetCache(), m0, {}, before);
    StaleStaysAligned({}, before);
    var p, end := LineBase(location), location + len;
    var c2, stale2 := FlushFrom(c1, p, end), Outside(stale1, p, end);
    FlushRefreshes(c1, m, stale1, p, end);
    EventsKeepCoherent(c2, m, stale2, after);
    UnstoredWordKept(m, stale2, after, a);
    FetchReadsMemory(CacheAfterAll(c2, m, after), MemAfterAll(m, after), StaleAfterAll(stale2, after), a);
    AddressParts(a);
    MappedInLine(MemAfterAll(m, after), LineBase(a), WordOf(a));
  }

  /** Right after the loop, no line that meets the range is in the cache. */
  lemma {:induction false} FlushedLineMisses(c: Cache, p: Word, end: Word, a: Word)
    requires Valid(c) && p % LINE_SIZE == 0 && end + LINE_SIZE <= 0x1_0000_0000
    requires TagOf(a) != 0 && (p <= LineBase(a) < end || !Hit(c, a))
    ensures !Hit(FlushFrom(c, p, end), a)
    decreases end - p
  {
    hide LineBase, TagOf, Hit, Synci;
    if p < end {
      NextLine(p);
      SynciMisses(c, p, a);
      InLine(p, 0);
      if p <= LineBase(a) {
        LinesApart(p, LineBase(a));
      }
      FlushedLineMisses(Synci(c, p), p + LINE_SIZE, end, a);
    }
  }

  lemma LinesApart(p: Word, b: Word)
    requires p % 16 == 0 && b % 16 == 0 && p <= b
    ensures b == p || p + 16 <= b
  {
    assert b == b / 16 * 16 && p == p / 16 * 16;
  }

  /** One tag after an invalidation. */
  lemma SynciTag(c: Cache, b: Word, way: nat, line: nat)
    requires Valid(c) && way < WAYS && line < LINES
    ensures Synci(c, b).tag[Slot(way, line)] ==
            if line == LineOf(b) && c.tag[Slot(way, line)] == TagOf(b) then 0 else c.tag[Slot(way, line)]
  {
    hide LineOf, TagOf;
    DivModUnique(Slot(way, line), LINES, way, line);
  }

  lemma SynciMisses(c: Cache, b: Word, a: Word)
    requires Valid(c) && TagOf(a) != 0
    ensures Valid(Synci(c, b))
    ensures LineBase(a) == LineBase(b) || !Hit(c, a) ==> !Hit(Synci(c, b), a)
  {
    hide LineOf, TagOf, LineBase, FindWay;
    SameLine(a, b);
    assert Valid(Synci(c, b));
    hide Synci, Slot;
    SynciTag(c, b, 0, LineOf(a));
    SynciTag(c, b, 1, LineOf(a));
    SynciTag(c, b, 2, LineOf(a));
    SynciTag(c, b, 3, LineOf(a));
    MissIff(c, a);
    MissIff(Synci(c, b), a);
  }

  lemma MissIff(c: Cache, a: Word)
    requires Shaped(c)
    ensures Hit(c, a) <==>
            c.tag[Slot(0, LineOf(a))] == TagOf(a) || c.tag[Slot(1, LineOf(a))] == TagOf(a) ||
            c.tag[Slot(2, LineOf(a))] == TagOf(a) || c.tag[Slot(3, LineOf(a))] == TagOf(a)
  {
    hide LineOf, TagOf, Slot;
    var way := FindWay(c.tag, LineOf(a), TagOf(a), 0);
    assert way == 0 || way == 1 || way == 2 || way == 3 || way == 4;
  }
}
