/** The cache image the simulator writes for synthesis: per way, the words of one way-sized piece of
    the text, and one tag for every line. The geometry is a parameter. */
module Preload {
  import opened Words
  import opened Memory

  /** log2 of the lines of a way, and of the words of a line. */
  datatype Geometry = Geometry(linesLog2: nat, wordsLog2: nat) {
    function Lines(): nat { Pow2(linesLog2) }
    function LineWords(): nat { Pow2(wordsLog2) }
    function WayWords(): (n: nat)
      ensures n >= 1
    {
      MulPositive(LineWords(), Lines());
      LineWords() * Lines()
    }
    function WaySize(): (n: nat)
      ensures n >= 4 && n % 4 == 0
    {
      DivModUnique(4 * WayWords(), 4, WayWords(), 0);
      4 * WayWords()
    }
  }

  lemma MulPositive(x: nat, y: nat)
    requires x >= 1 && y >= 1
    ensures x * y >= 1
  {
  }

  /** Four ways starting at text end within the address space. */
  predicate Fits(g: Geometry, text: Word) {
    text % 4 == 0 && text + 4 * g.WaySize() <= 0x1_0000_0000
  }

  function WayStart(g: Geometry, text: Word, way: nat): (start: Word)
    requires Fits(g, text) && way < 4
    ensures start % 4 == 0 && start + g.WaySize() <= 0x1_0000_0000
  {
    WayStartRange(g.WaySize(), text, way);
    text + way * g.WaySize()
  }

  lemma WayStartRange(size: nat, text: Word, way: nat)
    requires text % 4 == 0 && size % 4 == 0 && text + 4 * size <= 0x1_0000_0000 && way < 4
    ensures 0 <= way * size <= 3 * size
    ensures (text + way * size) % 4 == 0
  {
    var q := size / 4;
    assert way * size == way * (4 * q) == 4 * (way * q);
    DivModUnique(text + way * size, 4, text / 4 + way * q, 0);
    MulMonotone(way, 3, size);
  }

  lemma MulMonotone(x: int, y: int, d: nat)
    requires x <= y
    ensures x * d <= y * d
  {
    assert (y - x) * d >= 0;
  }

  /** The word at position i of a way's data image. */
  function ImageWord(g: Geometry, m: Mem, text: Word, way: nat, i: nat): Word
    requires Fits(g, text) && way < 4 && i < g.WayWords()
  {
    var start := WayStart(g, text, way);
    DivModUnique(start + 4 * i, 4, start / 4 + i, 0);
    FetchWord(m, start + 4 * i)
  }

  datatype Image = Image(data: seq<seq<Word>>, tags: seq<seq<Word>>)

  ghost predicate IsImage(img: Image, g: Geometry, m: Mem, text: Word)
    requires Fits(g, text)
  {
    |img.data| == 4 && |img.tags| == 4 &&
    (forall way :: 0 <= way < 4 ==> |img.data[way]| == g.WayWords() && |img.tags[way]| == g.Lines()) &&
    (forall way, i :: 0 <= way < 4 && 0 <= i < g.WayWords() ==> img.data[way][i] == ImageWord(g, m, text, way, i)) &&
    (forall way, l :: 0 <= way < 4 && 0 <= l < g.Lines() ==> img.tags[way][l] == text / g.WaySize() + way)
  }

  /** Dumps size bytes of memory from start on, word by word. */
  method Dump(m: Mem, start: Word, size: nat) returns (ws: seq<Word>)
    requires start % 4 == 0 && size % 4 == 0 && start + size <= 0x1_0000_0000
    ensures |ws| == size / 4
    ensures forall i :: 0 <= i < size / 4 ==> (start + 4 * i) % 4 == 0 && ws[i] == FetchWord(m, start + 4 * i)
  {
    ws := [];
    var i := 0;
    while i * 4 < size
      invariant 0 <= i <= size / 4 && |ws| == i
      invariant forall k :: 0 <= k < i ==> (start + 4 * k) % 4 == 0 && ws[k] == FetchWord(m, start + 4 * k)
      decreases size - 4 * i
    {
      DivModUnique(start + 4 * i, 4, start / 4 + i, 0);
      ws := ws + [FetchWord(m, start + 4 * i)];
      i := i + 1;
    }
  }

  /** The data files: one way-sized piece of memory after another. */
  method DumpData(g: Geometry, m: Mem, text: Word) returns (data: seq<seq<Word>>)
    requires Fits(g, text)
    ensures |data| == 4 && forall way :: 0 <= way < 4 ==> |data[way]| == g.WayWords()
    ensures forall way, i :: 0 <= way < 4 && 0 <= i < g.WayWords() ==> data[way][i] == ImageWord(g, m, text, way, i)
  {
    hide FetchWord, ImageWord, WayStart, Pow2, Wrap;
    var size := g.WaySize();
    DivModUnique(size, 4, g.WayWords(), 0);
    FirstWay(g, text);
    data := [];
    var start := text;
    var way := 0;
    while way < 4
      invariant 0 <= way <= 4 && |data| == way
      invariant way < 4 ==> start == WayStart(g, text, way)
      invariant forall w :: 0 <= w < way ==> |data[w]| == g.WayWords()
      invariant forall w, i :: 0 <= w < way && 0 <= i < g.WayWords() ==> data[w][i] == ImageWord(g, m, text, w, i)
    {
      var ws := Dump(m, start, size);
      DumpedWay(g, m, text, way, ws);
      data := data + [ws];
      if way < 3 {
        NextWay(g, text, way);
      }
      start := Wrap(start + size);
      way := way + 1;
    }
  }

  lemma FirstWay(g: Geometry, text: Word)
    requires Fits(g, text)
    ensures WayStart(g, text, 0) == text
  {
  }

  lemma NextWay(g: Geometry, text: Word, way: nat)
    requires Fits(g, text) && way < 3
    ensures Wrap(WayStart(g, text, way) + g.WaySize()) == WayStart(g, text, way + 1)
  {
    Distribute(way, 1, g.WaySize());
    WrapOnce(WayStart(g, text, way + 1));
    hide Geometry.WaySize, Wrap;
  }

  lemma DumpedWay(g: Geometry, m: Mem, text: Word, way: nat, ws: seq<Word>)
    requires Fits(g, text) && way < 4 && |ws| == g.WayWords()
    requires var start := WayStart(g, text, way);
             forall i :: 0 <= i < g.WayWords() ==> (start + 4 * i) % 4 == 0 && ws[i] == FetchWord(m, start + 4 * i)
    ensures forall i :: 0 <= i < g.WayWords() ==> ws[i] == ImageWord(g, m, text, way, i)
  {
    hide FetchWord, WayStart, Fits, Pow2, ImageWord, Geometry.WayWords;
    forall i | 0 <= i < g.WayWords() ensures ws[i] == ImageWord(g, m, text, way, i) {
      ImageWordIs(g, m, text, way, i, WayStart(g, text, way) + 4 * i);
    }
  }

  /** The tag files: the tag of the text's first way, counted up once for every way. */
  method DumpTags(g: Geometry, text: Word) returns (tags: seq<seq<Word>>)
    requires Fits(g, text)
    ensures |tags| == 4 && forall way :: 0 <= way < 4 ==> |tags[way]| == g.Lines()
    ensures forall way, l :: 0 <= way < 4 && 0 <= l < g.Lines() ==> tags[way][l] == text / g.WaySize() + way
  {
    var size, lines := g.WaySize(), g.Lines();
    tags := [];
    var line := new Word[lines];
    TagRange(text, size);
    var tag := text / size;
    var way := 0;
    while way < 4
      invariant 0 <= way <= 4 && |tags| == way && tag == text / size + way
      invariant forall w :: 0 <= w < way ==> |tags[w]| == lines
      invariant forall w, l :: 0 <= w < way && 0 <= l < lines ==> tags[w][l] == text / size + w
    {
      var i := 0;
      while i < lines
        invariant 0 <= i <= lines
        invariant forall l :: 0 <= l < i ==> line[l] == tag
      {
        line[i] := tag;
        i := i + 1;
      }
      tags := tags + [line[..]];
      tag := tag + 1;
      way := way + 1;
    }
  }

  /** Where the data segment starts. */
  const DATA_START: Word := 0x400E_0000

  /** Both caches: the instruction cache from the start of the text, the data cache from the start of
      the data. */
  method DumpCacheInitFiles(ic: Geometry, dc: Geometry, m: Mem, text: Word) returns (icache: Image, dcache: Image)
    requires Fits(ic, text) && Fits(dc, 0x400E_0000)
    ensures IsImage(icache, ic, m, text)
    ensures IsImage(dcache, dc, m, 0x400E_0000)
  {
    var icacheData := DumpData(ic, m, text);
    var dcacheData := DumpData(dc, m, DATA_START);
    var icacheTags := DumpTags(ic, text);
    var dcacheTags := DumpTags(dc, DATA_START);
    icache, dcache := Image(icacheData, icacheTags), Image(dcacheData, dcacheTags);
  }

  lemma TagRange(text: Word, size: nat)
    requires size >= 4
    ensures 0 <= text / size && text / size + 4 < 0x1_0000_0000
  {
    var q := text / size;
    assert q * size <= text;
    MulAtLeast(q, size);
    if q >= 1 {
      MulMonotone(4, size, q);
    }
  }

  // ---------------------------------------------------------------------------
  // Looking an address up in the image, as a fetch does

  function LineIndex(g: Geometry, a: Word): (l: nat)
    ensures l < g.Lines()
  {
    a / (4 * g.LineWords()) % g.Lines()
  }

  function WordIndex(g: Geometry, a: Word): (k: nat)
    ensures k < g.LineWords()
  {
    a / 4 % g.LineWords()
  }

  /** Where the word of an address is in a way's data image. */
  function Position(g: Geometry, a: Word): nat {
    LineIndex(g, a) * g.LineWords() + WordIndex(g, a)
  }

  predicate WayHits(img: Image, g: Geometry, a: Word, way: nat)
    requires |img.tags| == 4 && way < 4 && |img.tags[way]| == g.Lines()
  {
    img.tags[way][LineIndex(g, a)] == a / g.WaySize()
  }

  /** The position splits the offset in the way into line and word. */
  lemma PositionIsOffset(g: Geometry, a: Word)
    ensures Position(g, a) == a % g.WaySize() / 4 < g.WayWords()
  {
    var q, p, n := a / 4, g.LineWords(), g.Lines();
    DivDiv(a, 4, p);
    ModProduct(q, p, n);
    ModProduct(a, 4, p * n);
    DivModUnique(a % g.WaySize(), 4, q % (p * n), a % 4);
  }

  lemma DivDiv(a: nat, x: nat, y: nat)
    requires x >= 1 && y >= 1
    ensures x * y >= 1 && a / (x * y) == a / x / y
  {
    MulPositive(x, y);
    ModProduct(a, x, y);
    var q := a / x;
    assert a == q / y * (x * y) + (q % y * x + a % x) by {
      assert q == q / y * y + q % y;
      assert a == (q / y * y + q % y) * x + a % x;
      assert q / y * y * x == q / y * (x * y);
    }
    RemainderBound(q % y, y, a % x, x);
    DivModUnique(a, x * y, q / y, q % y * x + a % x);
  }

  lemma RemainderBound(i: nat, y: nat, j: nat, x: nat)
    requires i < y && j < x
    ensures i * x + j < x * y
  {
    MulMonotone(i + 1, y, x);
    assert (i + 1) * x == i * x + x;
  }

  lemma ModProduct(q: nat, p: nat, n: nat)
    requires p >= 1 && n >= 1
    ensures p * n >= 1 && q / p % n * p + q % p == q % (p * n)
  {
    MulPositive(p, n);
    var d := q / p;
    assert q == d / n * (p * n) + (d % n * p + q % p) by {
      assert d == d / n * n + d % n;
      assert q == (d / n * n + d % n) * p + q % p;
      assert d / n * n * p == d / n * (p * n);
    }
    RemainderBound(d % n, n, q % p, p);
    DivModUnique(q, p * n, d / n, d % n * p + q % p);
  }

  /** Exactly one way holds the address, and it holds the word memory holds. */
  ghost predicate LooksUp(img: Image, g: Geometry, m: Mem, text: Word, a: Word)
    requires Fits(g, text) && IsImage(img, g, m, text) && a % 4 == 0
  {
    exists way: nat :: way < 4 && WayHits(img, g, a, way) &&
      (forall w: nat :: w < 4 && WayHits(img, g, a, w) ==> w == way) &&
      Position(g, a) < g.WayWords() && img.data[way][Position(g, a)] == FetchWord(m, a)
  }

  lemma PositionFour(g: Geometry, a: Word)
    requires a % 4 == 0
    ensures Position(g, a) < g.WayWords() && 4 * Position(g, a) == a % g.WaySize()
  {
    hide Position, Pow2;
    PositionIsOffset(g, a);
    ModOfMultiple(a, g.WayWords());
  }

  /** The address is in one of the four ways, at its position. */
  lemma WayIsRight(g: Geometry, text: Word, a: Word) returns (way: nat)
    requires Fits(g, text) && text % g.WaySize() == 0
    requires text <= a < text + 4 * g.WaySize() && a % 4 == 0
    ensures way < 4 && a / g.WaySize() == text / g.WaySize() + way
    ensures Position(g, a) < g.WayWords() && WayStart(g, text, way) + 4 * Position(g, a) == a
  {
    hide Position, Pow2, Fits;
    var size := g.WaySize();
    WayOfAddress(size, text, a);
    PositionFour(g, a);
    hide Geometry.WaySize;
    way := (a - text) / size;
  }

  /** Reading tags and data off the image. */
  lemma ImageHits(img: Image, g: Geometry, m: Mem, text: Word, a: Word, way: nat)
    requires Fits(g, text) && IsImage(img, g, m, text) && way < 4
    requires a / g.WaySize() == text / g.WaySize() + way
    ensures WayHits(img, g, a, way) && forall w: nat :: w < 4 && WayHits(img, g, a, w) ==> w == way
    ensures forall i: nat :: i < g.WayWords() ==> img.data[way][i] == ImageWord(g, m, text, way, i)
  {
    hide LineIndex, Pow2, ImageWord, Fits;
    var l := LineIndex(g, a);
    assert img.tags[0][l] == text / g.WaySize();
    assert img.tags[1][l] == text / g.WaySize() + 1;
    assert img.tags[2][l] == text / g.WaySize() + 2;
    assert img.tags[3][l] == text / g.WaySize() + 3;
  }

  lemma ImageWordIs(g: Geometry, m: Mem, text: Word, way: nat, i: nat, p: Word)
    requires Fits(g, text) && way < 4 && i < g.WayWords() && WayStart(g, text, way) + 4 * i == p
    ensures p % 4 == 0 && ImageWord(g, m, text, way, i) == FetchWord(m, p)
  {
    var start := WayStart(g, text, way);
    hide FetchWord, WayStart, Fits, Pow2;
    DivModUnique(p, 4, start / 4 + i, 0);
  }

  /** With the text on a way boundary, every address of the preloaded range is looked up right. */
  lemma PreloadAgrees(g: Geometry, m: Mem, text: Word, img: Image, a: Word)
    requires Fits(g, text) && IsImage(img, g, m, text) && text % g.WaySize() == 0
    requires text <= a < text + 4 * g.WaySize() && a % 4 == 0
    ensures LooksUp(img, g, m, text, a)
  {
    var way := WayIsRight(g, text, a);
    ImageHits(img, g, m, text, a, way);
    ImageWordIs(g, m, text, way, Position(g, a), a);
    hide Position, WayHits, FetchWord, WayStart, IsImage, Fits, ImageWord, Pow2;
  }

  lemma WayOfAddress(size: nat, text: Word, a: Word)
    requires size >= 1 && text % size == 0 && text <= a < text + 4 * size
    ensures var way := (a - text) / size;
            0 <= way < 4 && a / size == text / size + way && a == text + way * size + a % size
  {
    var t, d := text / size, a - text;
    var way := d / size;
    QuotientBound(d, size, 4);
    Distribute(t, way, size);
    DivModUnique(a, size, t + way, d % size);
  }

  lemma Distribute(x: int, y: int, d: int)
    ensures (x + y) * d == x * d + y * d
  {
  }

  lemma QuotientBound(d: nat, size: nat, k: nat)
    requires size >= 1 && d < k * size
    ensures 0 <= d / size < k
  {
    var q := d / size;
    assert d == q * size + d % size;
    if q >= k {
      MulMonotone(k, q, size);
    }
    MulAtLeast(q, size);
  }

  lemma ModOfMultiple(a: nat, n: nat)
    requires n >= 1 && a % 4 == 0
    ensures a % (4 * n) == a % (4 * n) / 4 * 4
  {
    ModProduct(a, 4, n);
    DivModUnique(a % (4 * n), 4, a / 4 % n, 0);
  }

  /** The boundary is needed: the image is right for every memory exactly when the text starts on
      one. Otherwise the first address already finds the word that lies text % WaySize further on. */
  lemma PreloadExact(g: Geometry, text: Word)
    requires Fits(g, text)
    ensures (forall m: Mem, img: Image, a: Word | IsImage(img, g, m, text) &&
               text <= a < text + 4 * g.WaySize() && a % 4 == 0 :: LooksUp(img, g, m, text, a))
            <==> text % g.WaySize() == 0
  {
    if text % g.WaySize() == 0 {
      forall m: Mem, img: Image, a: Word | IsImage(img, g, m, text) &&
        text <= a < text + 4 * g.WaySize() && a % 4 == 0
        ensures LooksUp(img, g, m, text, a)
      {
        PreloadAgrees(g, m, text, img, a);
      }
    } else {
      MisalignedText(g, text);
    }
  }

  function ImageOf(g: Geometry, m: Mem, text: Word): (img: Image)
    requires Fits(g, text)
    ensures IsImage(img, g, m, text)
  {
    TagRange(text, g.WaySize());
    Image(seq(4, way requires 0 <= way < 4 =>
            seq(g.WayWords(), i requires 0 <= i < g.WayWords() => ImageWord(g, m, text, way, i))),
          seq(4, way requires 0 <= way < 4 => seq(g.Lines(), _ => text / g.WaySize() + way)))
  }

  lemma MisalignedText(g: Geometry, text: Word)
    requires Fits(g, text) && text % g.WaySize() != 0
    ensures exists m: Mem, img: Image :: IsImage(img, g, m, text) && !LooksUp(img, g, m, text, text)
  {
    hide Position, WayHits, FetchWord, IsImage, StoreWord, LooksUp, Pow2;
    var m := StoreWord(map[], text, 1);
    var img := ImageOf(g, m, text);
    LonelyWord(text, 1);
    MisplacedWord(g, m, text, img);
    var p := text + text % g.WaySize();
    assert FetchWord(m, p) == 0 != FetchWord(m, text);
    NotLookedUp(img, g, m, text);
  }

  lemma NotLookedUp(img: Image, g: Geometry, m: Mem, text: Word)
    requires Fits(g, text) && IsImage(img, g, m, text) && Position(g, text) < g.WayWords()
    requires forall way: nat :: way < 4 && WayHits(img, g, text, way) ==> way == 0
    requires img.data[0][Position(g, text)] != FetchWord(m, text)
    ensures !LooksUp(img, g, m, text, text)
  {
    hide Position, WayHits, FetchWord, Pow2;
  }

  /** Way 0 hits, one misplaced word further on. */
  lemma MisplacedWord(g: Geometry, m: Mem, text: Word, img: Image)
    requires Fits(g, text) && IsImage(img, g, m, text)
    ensures forall way: nat :: way < 4 && WayHits(img, g, text, way) ==> way == 0
    ensures Position(g, text) < g.WayWords()
    ensures text + text % g.WaySize() < 0x1_0000_0000 && (text + text % g.WaySize()) % 4 == 0
    ensures img.data[0][Position(g, text)] == FetchWord(m, text + text % g.WaySize())
  {
    ImageHits(img, g, m, text, text, 0);
    MisplacedAddress(g, text);
    ImageWordIs(g, m, text, 0, Position(g, text), text + text % g.WaySize());
    hide Position, WayHits, FetchWord, WayStart, IsImage, Fits, ImageWord, Pow2;
  }

  lemma MisplacedAddress(g: Geometry, text: Word)
    requires Fits(g, text)
    ensures Position(g, text) < g.WayWords()
    ensures WayStart(g, text, 0) + 4 * Position(g, text) == text + text % g.WaySize() < 0x1_0000_0000
  {
    hide Position, Pow2;
    PositionFour(g, text);
    RemainderInWay(text, g.WaySize());
  }

  lemma RemainderInWay(text: Word, size: nat)
    requires size >= 1 && text + 4 * size <= 0x1_0000_0000
    ensures 0 <= text % size < size && text + text % size < 0x1_0000_0000
  {
  }
}
