/** What the instruction cache keeps over every sequence of fetches, stores and invalidations. */
module CacheTheorems {
  import opened Words
  import opened Memory
  import opened ICache

  // ---------------------------------------------------------------------------
  // One operation

  /** A word that is not stale, on a mapped line without tag 0, is fetched as memory holds it. */
  lemma FetchReadsMemory(c: Cache, m: Mem, stale: set<Word>, a: Word)
    requires Coherent(c, m, stale)
    requires TagOf(a) != 0 && LineMapped(m, a) && a !in stale
    ensures Fetch(c, m, a) == Load(m, a, 4, true)
  {
    if a % 4 == 0 {
      AddressParts(a);
      WordInLine(m, LineBase(a), WordOf(a));
      MappedInLine(m, LineBase(a), WordOf(a));
      if Hit(c, a) {
        HitWord(c, m, stale, a);
      }
    }
  }

  /** For a word that is mapped, exactly the cached words and those on wholly mapped lines are fetched:
      a miss on a line of which some other word is unmapped is an access violation. */
  lemma FetchAgreesIff(c: Cache, m: Mem, stale: set<Word>, a: Word)
    requires Coherent(c, m, stale) && a % 4 == 0 && Mapped(m, a, 4) && TagOf(a) != 0 && a !in stale
    ensures Fetch(c, m, a) == Load(m, a, 4, true) <==>
            Hit(c, a) || forall k: nat :: k < 4 ==> Mapped(m, LineAddress(LineBase(a), k), 4)
    ensures Fetch(c, m, a) != Load(m, a, 4, true) ==> Fetch(c, m, a) == Fault(AccessViolation)
  {
    hide LineOf, TagOf, WordOf, LineBase, Mapped, LoadWord;
    AddressParts(a);
    WordInLine(m, LineBase(a), WordOf(a));
    if Hit(c, a) {
      HitWord(c, m, stale, a);
    } else {
      WholeLine(m, a);
    }
  }

  lemma WholeLine(m: Mem, a: Word)
    ensures LineMapped(m, a) <==> forall k: nat :: k < 4 ==> Mapped(m, LineAddress(LineBase(a), k), 4)
  {
    hide LineBase, Mapped;
    if LineMapped(m, a) {
      forall k: nat | k < 4 ensures Mapped(m, LineAddress(LineBase(a), k), 4) {
        MappedInLine(m, LineBase(a), k);
      }
    }
  }

  /** A hit address that is not stale finds the word memory holds there. */
  lemma HitWord(c: Cache, m: Mem, stale: set<Word>, a: Word)
    requires Coherent(c, m, stale) && a % 4 == 0 && Hit(c, a)
    requires TagOf(a) != 0 && a !in stale
    ensures c.data[Slot(FindWay(c.tag, LineOf(a), TagOf(a), 0), LineOf(a))].Get(WordOf(a)) == FetchWord(m, a)
  {
    hide LineOf, TagOf, WordOf, LineBase, BaseOf, LineAddress;
    AddressParts(a);
    var way := FindWay(c.tag, LineOf(a), TagOf(a), 0);
    assert WordCoherent(c, m, stale, way, LineOf(a), WordOf(a));
    BaseParts(TagOf(a), LineOf(a));
  }

  lemma FetchKeepsCoherent(c: Cache, m: Mem, stale: set<Word>, a: Word)
    requires Coherent(c, m, stale)
    ensures Coherent(Fetched(c, m, a), m, stale)
  {
    FillKeepsCoherent(c, m, stale, a);
  }

  /** A store may leave one more word stale. */
  lemma StoreKeepsCoherent(c: Cache, m: Mem, stale: set<Word>, a: Word, v: Word, n: nat)
    requires Coherent(c, m, stale)
    requires n == 1 || n == 2 || n == 4
    requires Store(m, a, v, n).Stored?
    ensures Coherent(c, Store(m, a, v, n).mem, stale + {WordBase(a)})
  {
    hide BaseOf, LineAddress, WordBase, Store, FetchWord;
    var m', stale' := Store(m, a, v, n).mem, stale + {WordBase(a)};
    forall way: nat, line: nat, k: nat | way < WAYS && line < LINES && k < LINE_WORDS
      ensures WordCoherent(c, m', stale', way, line, k)
    {
      assert WordCoherent(c, m, stale, way, line, k);
      var p := LineAddress(BaseOf(c.tag[Slot(way, line)], line), k);
      if p != WordBase(a) {
        StoreKeepsOtherWords(m, a, v, n, p);
      }
    }
  }

  /** The words of the line an address is on. */
  function LineSet(a: Word): set<Word> {
    var b := LineBase(a);
    {LineAddress(b, 0), LineAddress(b, 1), LineAddress(b, 2), LineAddress(b, 3)}
  }

  lemma InLineSet(a: Word, p: Word)
    requires p % 4 == 0
    ensures p in LineSet(a) <==> LineBase(p) == LineBase(a)
  {
    hide LineBase, LineOf, TagOf, WordOf, LineAddress, BaseOf;
    AddressParts(p);
    var k := WordOf(p);
    assert k == 0 || k == 1 || k == 2 || k == 3;
    LineOfWord(LineBase(a), 0);
    LineOfWord(LineBase(a), 1);
    LineOfWord(LineBase(a), 2);
    LineOfWord(LineBase(a), 3);
  }

  /** An invalidation makes its line fresh again. */
  lemma SynciRefreshes(c: Cache, m: Mem, stale: set<Word>, a: Word)
    requires Coherent(c, m, stale)
    ensures Coherent(Synci(c, a), m, stale - LineSet(a))
  {
    hide LineOf, TagOf, LineBase, BaseOf, LineAddress, LineSet, FetchWord;
    var c' := Synci(c, a);
    forall way: nat, line: nat, k: nat | way < WAYS && line < LINES && k < LINE_WORDS
      ensures WordCoherent(c', m, stale - LineSet(a), way, line, k)
    {
      assert WordCoherent(c, m, stale, way, line, k);
      var tag := c.tag[Slot(way, line)];
      assert Slot(way, line) % LINES == line;
      BaseParts(tag, line);
      SameLine(BaseOf(tag, line), a);
      LineOfWord(BaseOf(tag, line), k);
      InLineSet(a, LineAddress(BaseOf(tag, line), k));
    }
  }

  lemma LineOfWord(b: Word, k: nat)
    requires b % 16 == 0 && k < LINE_WORDS
    ensures LineBase(LineAddress(b, k)) == b
  {
    InLine(b, 4 * k);
  }

  // ---------------------------------------------------------------------------
  // Sequences of operations

  datatype Event = FetchAt(a: Word) | StoreAt(a: Word, v: Word, n: nat) | SynciAt(a: Word)

  predicate Allowed(m: Mem, e: Event) {
    e.StoreAt? ==> (e.n == 1 || e.n == 2 || e.n == 4) && Store(m, e.a, e.v, e.n).Stored?
  }

  function MemAfter(m: Mem, e: Event): Mem
    requires Allowed(m, e)
  {
    if e.StoreAt? then Store(m, e.a, e.v, e.n).mem else m
  }

  function CacheAfter(c: Cache, m: Mem, e: Event): (c': Cache)
    requires Shaped(c)
    ensures Shaped(c')
  {
    match e
    case FetchAt(a) => Fetched(c, m, a)
    case StoreAt(_, _, _) => c
    case SynciAt(a) => Synci(c, a)
  }

  function StaleAfter(stale: set<Word>, e: Event): set<Word> {
    match e
    case FetchAt(_) => stale
    case StoreAt(a, _, _) => stale + {WordBase(a)}
    case SynciAt(a) => stale - LineSet(a)
  }

  /** Every store of the sequence succeeds. */
  predicate AllAllowed(m: Mem, es: seq<Event>)
    decreases |es|
  {
    es == [] || (Allowed(m, es[0]) && AllAllowed(MemAfter(m, es[0]), es[1..]))
  }

  /** The words the cached fetches of the sequence return. */
  function CachedReads(c: Cache, m: Mem, es: seq<Event>): seq<Access>
    requires Shaped(c) && AllAllowed(m, es)
    decreases |es|
  {
    if es == [] then [] else
      var rest := CachedReads(CacheAfter(c, m, es[0]), MemAfter(m, es[0]), es[1..]);
      if es[0].FetchAt? then [Fetch(c, m, es[0].a)] + rest else rest
  }

  /** The words the same fetches return straight from memory. */
  function DirectReads(m: Mem, es: seq<Event>): seq<Access>
    requires AllAllowed(m, es)
    decreases |es|
  {
    if es == [] then [] else
      var rest := DirectReads(MemAfter(m, es[0]), es[1..]);
      if es[0].FetchAt? then [Load(m, es[0].a, 4, true)] + rest else rest
  }

  /** No fetch touches an unmapped line, a line with tag 0, or a stale word. */
  predicate FetchesFresh(m: Mem, stale: set<Word>, es: seq<Event>)
    requires AllAllowed(m, es)
    decreases |es|
  {
    es == [] ||
    ((es[0].FetchAt? ==> TagOf(es[0].a) != 0 && LineMapped(m, es[0].a) && es[0].a !in stale) &&
     FetchesFresh(MemAfter(m, es[0]), StaleAfter(stale, es[0]), es[1..]))
  }

  lemma EventKeepsCoherent(c: Cache, m: Mem, stale: set<Word>, e: Event)
    requires Coherent(c, m, stale) && Allowed(m, e)
    ensures Coherent(CacheAfter(c, m, e), MemAfter(m, e), StaleAfter(stale, e))
  {
    match e
    case FetchAt(a) => FetchKeepsCoherent(c, m, stale, a);
    case StoreAt(a, v, n) => StoreKeepsCoherent(c, m, stale, a, v, n);
    case SynciAt(a) => SynciRefreshes(c, m, stale, a);
  }

  /** The cache is invisible to every sequence that invalidates a line between storing to a word
      of it and fetching that word. */
  lemma {:induction false} CacheIsTransparent(c: Cache, m: Mem, stale: set<Word>, es: seq<Event>)
    requires Coherent(c, m, stale) && AllAllowed(m, es) && FetchesFresh(m, stale, es)
    ensures CachedReads(c, m, es) == DirectReads(m, es)
    decreases |es|
  {
    if es == [] {
    } else {
      if es[0].FetchAt? {
        FetchReadsMemory(c, m, stale, es[0].a);
      }
      EventKeepsCoherent(c, m, stale, es[0]);
      CacheIsTransparent(CacheAfter(c, m, es[0]), MemAfter(m, es[0]), StaleAfter(stale, es[0]), es[1..]);
    }
  }

  lemma ResetIsCoherent(m: Mem)
    ensures Coherent(ResetCache(), m, {})
  {
  }

  /** The ways are filled in order from way 0 on. */
  lemma FirstMissFillsWayZero(m: Mem, a: Word)
    requires TagOf(a) != 0
    ensures !Hit(ResetCache(), a)
    ensures Fetched(ResetCache(), m, a).tag[LineOf(a)] == TagOf(a) && Fetched(ResetCache(), m, a).nextWay == 1
  {
    hide LineOf, TagOf, LineWords;
    WrapOnce(1);
  }

  /** Neither condition can be dropped. A line whose tag is 0 hits the reset cache and reads 0,
      whatever memory holds. */
  lemma TagZeroReadsGarbage(m: Mem, a: Word)
    requires TagOf(a) == 0 && a % 4 == 0 && Mapped(m, a, 4)
    ensures Fetch(ResetCache(), m, a) == Value(0)
    ensures Fetch(ResetCache(), m, a) == Load(m, a, 4, true) <==> LoadWord(m, a) == 0
  {
    var c := ResetCache();
    assert c.tag[Slot(0, LineOf(a))] == 0;
    assert c.data[Slot(0, LineOf(a))] == Line(0, 0, 0, 0);
  }

  /** And a resident word that is stored to without an invalidation is fetched as it was. */
  lemma StaleReadsOldWord(c: Cache, m: Mem, a: Word, v: Word)
    requires Coherent(c, m, {}) && Hit(c, a) && TagOf(a) != 0
    requires Mapped(m, a, 4) && Store(m, a, v, 4).Stored?
    ensures Fetch(c, Store(m, a, v, 4).mem, a) == Value(LoadWord(m, a))
    ensures Load(Store(m, a, v, 4).mem, a, 4, true) == Value(v)
  {
    HitWord(c, m, {}, a);
    LoadAfterStore(m, a, v, a);
    StoreFrame(m, a, v, 4, a);
    StoreFrame(m, a, v, 4, Wrap(a + 3));
  }

  // ---------------------------------------------------------------------------
  // Tags stay distinct

  /** No valid line is in two ways. */
  ghost predicate DistinctTags(c: Cache)
    requires Shaped(c)
  {
    forall v: nat, w: nat, line: nat :: v < w < WAYS && line < LINES ==>
      (c.tag[Slot(v, line)] == c.tag[Slot(w, line)] ==> c.tag[Slot(v, line)] == 0)
  }

  lemma EventKeepsDistinct(c: Cache, m: Mem, e: Event)
    requires Valid(c) && DistinctTags(c)
    ensures Valid(CacheAfter(c, m, e)) && DistinctTags(CacheAfter(c, m, e))
  {
    var c' := CacheAfter(c, m, e);
    match e
    case FetchAt(a) =>
      if !Hit(c, a) {
        FillKeepsDistinct(c, m, a);
      }
    case StoreAt(_, _, _) =>
    case SynciAt(_) =>
      forall v: nat, w: nat, line: nat | v < w < WAYS && line < LINES
        ensures c'.tag[Slot(v, line)] == c'.tag[Slot(w, line)] ==> c'.tag[Slot(v, line)] == 0
      {
        assert Slot(v, line) % LINES == line && Slot(w, line) % LINES == line;
      }
  }

  lemma FillKeepsDistinct(c: Cache, m: Mem, a: Word)
    requires Valid(c) && DistinctTags(c) && !Hit(c, a)
    ensures Valid(Fill(c, m, a)) && DistinctTags(Fill(c, m, a))
  {
    hide LineOf, TagOf, LineBase, BaseOf, LineWords, Victim, Slot, Wrap;
    AddressParts(a);
    var c' := Fill(c, m, a);
    forall v: nat, w: nat, line: nat | v < w < WAYS && line < LINES
      ensures c'.tag[Slot(v, line)] == c'.tag[Slot(w, line)] ==> c'.tag[Slot(v, line)] == 0
    {
      if line == LineOf(a) {
        assert c.tag[Slot(v, line)] != TagOf(a) && c.tag[Slot(w, line)] != TagOf(a);
      }
      var way := Victim(c.nextWay);
      if Slot(v, line) == Slot(way, LineOf(a)) {
        SlotsDiffer(v, line, way, LineOf(a));
      }
      if Slot(w, line) == Slot(way, LineOf(a)) {
        SlotsDiffer(w, line, way, LineOf(a));
      }
      if Slot(v, line) == Slot(w, line) {
        SlotsDiffer(v, line, w, line);
      }
    }
  }

  function CacheAfterAll(c: Cache, m: Mem, es: seq<Event>): (c': Cache)
    requires Shaped(c) && AllAllowed(m, es)
    ensures Shaped(c')
    decreases |es|
  {
    if es == [] then c else CacheAfterAll(CacheAfter(c, m, es[0]), MemAfter(m, es[0]), es[1..])
  }

  function MemAfterAll(m: Mem, es: seq<Event>): Mem
    requires AllAllowed(m, es)
    decreases |es|
  {
    if es == [] then m else MemAfterAll(MemAfter(m, es[0]), es[1..])
  }

  function StaleAfterAll(stale: set<Word>, es: seq<Event>): set<Word>
    decreases |es|
  {
    if es == [] then stale else StaleAfterAll(StaleAfter(stale, es[0]), es[1..])
  }

  lemma {:induction false} EventsKeepCoherent(c: Cache, m: Mem, stale: set<Word>, es: seq<Event>)
    requires Coherent(c, m, stale) && AllAllowed(m, es)
    ensures Coherent(CacheAfterAll(c, m, es), MemAfterAll(m, es), StaleAfterAll(stale, es))
    decreases |es|
  {
    if es == [] {
    } else {
      EventKeepsCoherent(c, m, stale, es[0]);
      EventsKeepCoherent(CacheAfter(c, m, es[0]), MemAfter(m, es[0]), StaleAfter(stale, es[0]), es[1..]);
    }
  }

  ghost predicate NeverStored(es: seq<Event>, a: Word) {
    forall i :: 0 <= i < |es| && es[i].StoreAt? ==> WordBase(es[i].a) != a
  }

  /** A word nobody stores to keeps its value and its mapping, and does not become stale. */
  lemma {:induction false} UnstoredWordKept(m: Mem, stale: set<Word>, es: seq<Event>, a: Word)
    requires AllAllowed(m, es) && NeverStored(es, a) && a % 4 == 0 && a !in stale
    ensures a !in StaleAfterAll(stale, es)
    ensures FetchWord(MemAfterAll(m, es), a) == FetchWord(m, a)
    ensures Mapped(MemAfterAll(m, es), a, 4) == Mapped(m, a, 4)
    decreases |es|
  {
    hide FetchWord, Mapped, WordBase, LineSet;
    if es == [] {
    } else {
      assert es[0].StoreAt? ==> WordBase(es[0].a) != a;
      assert NeverStored(es[1..], a);
      if es[0].StoreAt? {
        StoreKeepsOtherWords(m, es[0].a, es[0].v, es[0].n, a);
      }
      UnstoredWordKept(MemAfter(m, es[0]), StaleAfter(stale, es[0]), es[1..], a);
    }
  }

  lemma {:induction false} TagsStayDistinct(c: Cache, m: Mem, es: seq<Event>)
    requires Valid(c) && DistinctTags(c) && AllAllowed(m, es)
    ensures Valid(CacheAfterAll(c, m, es)) && DistinctTags(CacheAfterAll(c, m, es))
    decreases |es|
  {
    if es == [] {
    } else {
      EventKeepsDistinct(c, m, es[0]);
      TagsStayDistinct(CacheAfter(c, m, es[0]), MemAfter(m, es[0]), es[1..]);
    }
  }

  // ---------------------------------------------------------------------------
  // How long a filled line stays

  function Misses(c: Cache, m: Mem, es: seq<Event>): nat
    requires Shaped(c) && AllAllowed(m, es)
    decreases |es|
  {
    if es == [] then 0 else
      var rest := Misses(CacheAfter(c, m, es[0]), MemAfter(m, es[0]), es[1..]);
      MissOf(c, es[0]) + rest
  }

  ghost predicate NeverInvalidated(es: seq<Event>, a: Word) {
    forall i :: 0 <= i < |es| && es[i].SynciAt? ==> LineBase(es[i].a) != LineBase(a)
  }

  lemma NextVictim(n: Word)
    ensures Victim(Wrap(n + 1)) == Ahead(Victim(n), 1)
  {
    if n + 1 < 0x1_0000_0000 {
      assert (n + 1) % 4 == (n % 4 + 1) % 4;
    }
  }

  /** The way k places after the given one in the victim counter's round. */
  function Ahead(way: nat, k: nat): (w: nat)
    requires way < WAYS && k <= WAYS
    ensures w < WAYS
  {
    if way + k < WAYS then way + k else way + k - WAYS
  }

  function MissOf(c: Cache, e: Event): nat
    requires Shaped(c)
  {
    if e.FetchAt? && !Hit(c, e.a) then 1 else 0
  }

  lemma SlotSurvivesOne(c: Cache, m: Mem, e: Event, a: Word, way: nat, lag: nat)
    requires Valid(c) && (e.SynciAt? ==> LineBase(e.a) != LineBase(a))
    requires way < WAYS && c.tag[Slot(way, LineOf(a))] == TagOf(a)
    requires lag + MissOf(c, e) <= 3 && Victim(c.nextWay) == Ahead(way, 1 + lag)
    ensures var c', s := CacheAfter(c, m, e), Slot(way, LineOf(a));
            Valid(c') && c'.tag[s] == TagOf(a) && c'.data[s] == c.data[s] &&
            Victim(c'.nextWay) == Ahead(way, 1 + lag + MissOf(c, e))
  {
    hide LineOf, TagOf, LineBase, LineWords, Victim, Wrap;
    match e
    case FetchAt(b) =>
      AddressParts(b);
      NextVictim(c.nextWay);
    case StoreAt(_, _, _) =>
    case SynciAt(b) =>
      SameLine(b, a);
      assert Slot(way, LineOf(a)) % LINES == LineOf(a);
  }

  /** A slot is overwritten only when the victim counter comes round to it. */
  lemma {:induction false} SlotSurvives(c: Cache, m: Mem, es: seq<Event>, a: Word, way: nat, lag: nat)
    requires Valid(c) && AllAllowed(m, es) && NeverInvalidated(es, a)
    requires way < WAYS && c.tag[Slot(way, LineOf(a))] == TagOf(a)
    requires lag + Misses(c, m, es) <= 3 && Victim(c.nextWay) == Ahead(way, 1 + lag)
    ensures var c', s := CacheAfterAll(c, m, es), Slot(way, LineOf(a));
            c'.tag[s] == TagOf(a) && c'.data[s] == c.data[s] &&
            Victim(c'.nextWay) == Ahead(way, 1 + lag + Misses(c, m, es))
    decreases |es|
  {
    hide LineOf, TagOf, LineBase, LineWords, Victim, CacheAfter, MemAfter, Allowed;
    if es == [] {
    } else {
      assert es[0].SynciAt? ==> LineBase(es[0].a) != LineBase(a);
      assert NeverInvalidated(es[1..], a);
      SlotSurvivesOne(c, m, es[0], a, way, lag);
      SlotSurvives(CacheAfter(c, m, es[0]), MemAfter(m, es[0]), es[1..], a, way, lag + MissOf(c, es[0]));
    }
  }

  /** A line just filled hits, with the words it was filled with, until three more misses of any
      lines have happened or it is invalidated. */
  lemma LineSurvivesThreeMisses(c: Cache, m: Mem, a: Word, es: seq<Event>)
    requires Valid(c) && DistinctTags(c) && TagOf(a) != 0 && !Hit(c, a)
    requires AllAllowed(m, es) && NeverInvalidated(es, a) && Misses(Fill(c, m, a), m, es) <= 3
    ensures var c' := CacheAfterAll(Fill(c, m, a), m, es);
            Hit(c', a) && c'.data[Slot(FindWay(c'.tag, LineOf(a), TagOf(a), 0), LineOf(a))]
                       == LineWords(m, LineBase(a))
  {
    hide LineOf, TagOf, LineBase, LineWords, Victim;
    FilledSlotSurvives(c, m, a, es);
    OnlyWay(CacheAfterAll(Fill(c, m, a), m, es), a, Victim(c.nextWay));
  }

  lemma FilledSlotSurvives(c: Cache, m: Mem, a: Word, es: seq<Event>)
    requires Valid(c) && DistinctTags(c) && !Hit(c, a)
    requires AllAllowed(m, es) && NeverInvalidated(es, a) && Misses(Fill(c, m, a), m, es) <= 3
    ensures var c', s := CacheAfterAll(Fill(c, m, a), m, es), Slot(Victim(c.nextWay), LineOf(a));
            Valid(c') && DistinctTags(c') &&
            c'.tag[s] == TagOf(a) && c'.data[s] == LineWords(m, LineBase(a)) &&
            Victim(c'.nextWay) == Ahead(Victim(c.nextWay), 1 + Misses(Fill(c, m, a), m, es))
  {
    hide LineOf, TagOf, LineBase, LineWords, Victim, Wrap, CacheAfterAll, Misses;
    AddressParts(a);
    NextVictim(c.nextWay);
    FillKeepsDistinct(c, m, a);
    SlotSurvives(Fill(c, m, a), m, es, a, Victim(c.nextWay), 0);
    TagsStayDistinct(Fill(c, m, a), m, es);
  }

  lemma OnlyWay(c: Cache, a: Word, way: nat)
    requires Valid(c) && DistinctTags(c) && TagOf(a) != 0
    requires way < WAYS && c.tag[Slot(way, LineOf(a))] == TagOf(a)
    ensures FindWay(c.tag, LineOf(a), TagOf(a), 0) == way
  {
    var v := FindWay(c.tag, LineOf(a), TagOf(a), 0);
    assert v <= way;
  }

  /** The bound is exact: after three misses, a fourth one on the same line index evicts it. */
  lemma FourthMissEvicts(c: Cache, m: Mem, a: Word, es: seq<Event>, c': Cache, b: Word)
    requires Valid(c) && DistinctTags(c) && TagOf(a) != 0 && !Hit(c, a)
    requires AllAllowed(m, es) && NeverInvalidated(es, a) && Misses(Fill(c, m, a), m, es) == 3
    requires c' == CacheAfterAll(Fill(c, m, a), m, es)
    requires LineOf(b) == LineOf(a) && !Hit(c', b)
    ensures !Hit(Fetched(c', MemAfterAll(m, es), b), a)
  {
    hide LineOf, TagOf, LineBase, LineWords, Victim, Misses;
    FilledSlotSurvives(c, m, a, es);
    RefillEvicts(c', MemAfterAll(m, es), a, b, Victim(c.nextWay));
  }

  lemma RefillEvicts(c: Cache, m: Mem, a: Word, b: Word, way: nat)
    requires Valid(c) && DistinctTags(c) && TagOf(a) != 0
    requires way < WAYS && c.tag[Slot(way, LineOf(a))] == TagOf(a) && Victim(c.nextWay) == way
    requires LineOf(b) == LineOf(a) && !Hit(c, b)
    ensures !Hit(Fill(c, m, b), a)
  {
    hide LineOf, TagOf, LineBase, LineWords, Victim;
    var c', line := Fill(c, m, b), LineOf(a);
    forall v: nat | v < WAYS
      ensures c'.tag[Slot(v, line)] != TagOf(a)
    {
      if v == way {
        assert c.tag[Slot(way, line)] != TagOf(b);
      } else if c.tag[Slot(v, line)] == TagOf(a) {
        OnlyWay(c, a, v);
        OnlyWay(c, a, way);
      }
    }
  }
}
