/** The simulator's 8 KiB, 4-way instruction cache: 128 lines of four words in each way, one
    victim counter for all lines, explicit invalidation, and no snooping of stores. */
module ICache {
  import opened Words
  import opened Memory

  const WAYS := 4
  const LINES := 128
  const LINE_WORDS := 4

  /** The cache's arrays. Slot (way, line) is row way * 128 + line; a data row is one line. */
  datatype Cache = Cache(tag: seq<Word>, data: seq<Line>, nextWay: Word)

  predicate Shaped(c: Cache) {
    |c.tag| == WAYS * LINES && |c.data| == WAYS * LINES
  }

  ghost predicate Valid(c: Cache) {
    Shaped(c) && forall s :: 0 <= s < WAYS * LINES ==> c.tag[s] < 0x20_0000
  }

  function LineOf(a: Word): (l: nat)
    ensures l < LINES
  {
    a / 16 % 128
  }

  function WordOf(a: Word): (k: nat)
    ensures k < LINE_WORDS
  {
    a % 16 / 4
  }

  function TagOf(a: Word): Word {
    a / 16 / 128
  }

  function Slot(way: nat, line: nat): (s: nat)
    requires way < WAYS && line < LINES
    ensures s < WAYS * LINES
  {
    way * 128 + line
  }

  /** The address a slot's line stands for when it holds the given tag. */
  function BaseOf(tag: Word, line: nat): (b: Word)
    requires tag < 0x20_0000 && line < LINES
    ensures b % 16 == 0
  {
    tag * 2048 + line * 16
  }

  lemma AddressParts(a: Word)
    ensures TagOf(a) < 0x20_0000
    ensures LineBase(a) == BaseOf(TagOf(a), LineOf(a))
    ensures a % 4 == 0 ==> a == LineAddress(LineBase(a), WordOf(a))
  {
    if a % 4 == 0 {
      DivModUnique(a % 16, 4, a / 4 - a / 16 * 4, 0);
    }
  }

  lemma WordInLine(m: Mem, b: Word, k: nat)
    requires b % 16 == 0 && k < LINE_WORDS
    ensures LineWords(m, b).Get(k) == FetchWord(m, LineAddress(b, k))
  {
  }

  lemma MappedInLine(m: Mem, b: Word, k: nat)
    requires b % 16 == 0 && k < LINE_WORDS && LineMappedAt(m, b)
    ensures Mapped(m, LineAddress(b, k), 4)
  {
  }

  lemma BaseParts(tag: Word, line: nat)
    requires tag < 0x20_0000 && line < LINES
    ensures TagOf(BaseOf(tag, line)) == tag && LineOf(BaseOf(tag, line)) == line
    ensures LineBase(BaseOf(tag, line)) == BaseOf(tag, line)
  {
    var b := BaseOf(tag, line);
    DivModUnique(b, 16, tag * 128 + line, 0);
    DivModUnique(tag * 128 + line, 128, tag, line);
  }

  lemma SameLine(a: Word, b: Word)
    ensures LineBase(a) == LineBase(b) <==> LineOf(a) == LineOf(b) && TagOf(a) == TagOf(b)
  {
    hide LineOf, TagOf, LineBase, BaseOf;
    AddressParts(a);
    AddressParts(b);
    BaseParts(TagOf(a), LineOf(a));
    BaseParts(TagOf(b), LineOf(b));
  }

  /** The first way at or after `way` that holds the tag on this line; 4 when there is none. */
  function FindWay(tags: seq<Word>, line: nat, tag: Word, way: nat): (w: nat)
    requires |tags| == WAYS * LINES && line < LINES && way <= WAYS
    ensures way <= w <= WAYS
    ensures w < WAYS ==> tags[Slot(w, line)] == tag
    ensures forall v :: way <= v < w ==> tags[Slot(v, line)] != tag
    decreases WAYS - way
  {
    if way == WAYS then WAYS
    else if tags[Slot(way, line)] == tag then way
    else FindWay(tags, line, tag, way + 1)
  }

  /** The way the next miss fills. */
  function Victim(n: Word): (way: nat)
    ensures way < WAYS
  {
    n % 4
  }

  function Fill(c: Cache, m: Mem, a: Word): Cache
    requires Shaped(c)
  {
    var s := Slot(Victim(c.nextWay), LineOf(a));
    Cache(c.tag[s := TagOf(a)], c.data[s := LineWords(m, LineBase(a))], Wrap(c.nextWay + 1))
  }

  predicate Hit(c: Cache, a: Word)
    requires |c.tag| == WAYS * LINES
  {
    FindWay(c.tag, LineOf(a), TagOf(a), 0) < WAYS
  }

  /** The fetch's next cache. */
  function Fetched(c: Cache, m: Mem, a: Word): (c': Cache)
    requires Shaped(c)
    ensures Shaped(c')
  {
    if Hit(c, a) then c else Fill(c, m, a)
  }

  /** The fetch's answer. A hit answers from the line, and reads memory only to compare. */
  function Fetch(c: Cache, m: Mem, a: Word): Access
    requires Shaped(c)
  {
    var check := Load(m, a, 4, true);
    var way := FindWay(c.tag, LineOf(a), TagOf(a), 0);
    if check == Fault(Fatal) || (check.Fault? && way < WAYS) then check
    else if way < WAYS then Value(c.data[Slot(way, LineOf(a))].Get(WordOf(a)))
    else if check.Fault? || !LineMapped(m, a) then Fault(AccessViolation)
    else Value(LineWords(m, LineBase(a)).Get(WordOf(a)))
  }

  /** Invalidation clears the tag of every way that holds the line. */
  function Synci(c: Cache, a: Word): Cache
    requires |c.tag| == WAYS * LINES
  {
    c.(tag := seq(WAYS * LINES, i requires 0 <= i < WAYS * LINES =>
      if i % LINES == LineOf(a) && c.tag[i] == TagOf(a) then 0 else c.tag[i]))
  }

  function ResetCache(): (c: Cache)
    ensures Valid(c)
  {
    Cache(seq(WAYS * LINES, _ => 0), seq(WAYS * LINES, _ => Line(0, 0, 0, 0)), 0)
  }

  // ---------------------------------------------------------------------------
  // Coherence up to a set of stale words

  /** Word k of the slot: its line is invalid, or the word is stale, or it is what memory holds. */
  ghost predicate WordCoherent(c: Cache, m: Mem, stale: set<Word>, way: nat, line: nat, k: nat)
    requires Valid(c) && way < WAYS && line < LINES && k < LINE_WORDS
  {
    var s := Slot(way, line);
    var p := LineAddress(BaseOf(c.tag[s], line), k);
    c.tag[s] == 0 || p in stale || c.data[s].Get(k) == FetchWord(m, p)
  }

  ghost predicate Coherent(c: Cache, m: Mem, stale: set<Word>) {
    Valid(c) &&
    forall way: nat, line: nat, k: nat :: way < WAYS && line < LINES && k < LINE_WORDS ==>
      WordCoherent(c, m, stale, way, line, k)
  }

  lemma SlotsDiffer(way: nat, line: nat, v: nat, l: nat)
    requires way < WAYS && line < LINES && v < WAYS && l < LINES && Slot(way, line) == Slot(v, l)
    ensures way == v && line == l
  {
  }

  /** The filled slot holds the line at its base, as memory has it. */
  lemma FilledWord(c: Cache, m: Mem, stale: set<Word>, a: Word, k: nat)
    requires Valid(c) && k < LINE_WORDS
    ensures Valid(Fill(c, m, a)) && WordCoherent(Fill(c, m, a), m, stale, Victim(c.nextWay), LineOf(a), k)
  {
    hide LineOf, TagOf, LineBase, BaseOf, LineWords, LineAddress, FetchWord, Victim, Slot, Wrap;
    AddressParts(a);
    WordInLine(m, LineBase(a), k);
  }

  lemma FillKeepsCoherent(c: Cache, m: Mem, stale: set<Word>, a: Word)
    requires Coherent(c, m, stale)
    ensures Coherent(Fill(c, m, a), m, stale)
  {
    hide LineOf, TagOf, LineBase, BaseOf, LineWords, LineAddress, FetchWord, Victim, Slot, Wrap;
    var c' := Fill(c, m, a);
    FilledWord(c, m, stale, a, 0);
    forall way: nat, line: nat, k: nat | way < WAYS && line < LINES && k < LINE_WORDS
      ensures WordCoherent(c', m, stale, way, line, k)
    {
      if Slot(way, line) == Slot(Victim(c.nextWay), LineOf(a)) {
        SlotsDiffer(way, line, Victim(c.nextWay), LineOf(a));
        FilledWord(c, m, stale, a, k);
      } else {
        assert WordCoherent(c, m, stale, way, line, k);
      }
    }
  }
}
