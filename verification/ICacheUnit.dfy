/** The instruction cache as the simulator keeps it: arrays updated in place. */
module ICacheUnit {
  import opened Words
  import opened Memory
  import opened ICache

  class InstructionCache {
    const tag: array<Word>
    const data: array2<Word>
    var nextWay: Word

    ghost predicate Valid()
      reads this
    {
      tag.Length == WAYS * LINES && data.Length0 == WAYS * LINES && data.Length1 == LINE_WORDS
    }

    /** Row s of the data array. */
    function Row(s: nat): Line
      requires data.Length1 == LINE_WORDS && s < data.Length0
      reads data
    {
      Line(data[s, 0], data[s, 1], data[s, 2], data[s, 3])
    }

    /** The whole data array, row by row. */
    ghost function Rows(): (rows: seq<Line>)
      requires data.Length1 == LINE_WORDS
      reads data
      ensures |rows| == data.Length0 && forall s :: 0 <= s < |rows| ==> rows[s] == Row(s)
    {
      seq(data.Length0, s requires 0 <= s < data.Length0 && data.Length1 == LINE_WORDS reads data => Row(s))
    }

    ghost function Contents(): (c: Cache)
      requires Valid()
      reads this, tag, data
      ensures Shaped(c)
    {
      Cache(tag[..], Rows(), nextWay)
    }

    constructor ()
      ensures Valid() && Contents() == ResetCache()
      ensures fresh(tag) && fresh(data)
    {
      tag := new Word[WAYS * LINES](_ => 0);
      data := new Word[WAYS * LINES, LINE_WORDS]((_, _) => 0);
      nextWay := 0;
    }

    /** Looks for the tag in the line's four ways. */
    method Search(line: nat, t: Word) returns (way: nat)
      requires Valid() && line < LINES
      ensures way == FindWay(tag[..], line, t, 0)
    {
      way := 0;
      while way < WAYS && tag[Slot(way, line)] != t
        invariant way <= WAYS
        invariant FindWay(tag[..], line, t, 0) == FindWay(tag[..], line, t, way)
      {
        way := way + 1;
      }
    }

    /** Fetches one word, filling a line on a miss. */
    method FetchFrom(m: Mem, address: Word) returns (r: Access)
      requires Valid()
      modifies this, tag, data
      ensures Valid()
      ensures r == Fetch(old(Contents()), m, address)
      ensures Contents() == Fetched(old(Contents()), m, address)
    {
      hide LineOf, WordOf, TagOf, LineBase, LineWords, LineMappedAt, Victim;
      ghost var c := Contents();
      var line, word, t := LineOf(address), WordOf(address), TagOf(address);
      var check := Load(m, address, 4, true);
      var way := Search(line, t);
      if way < WAYS {
        if check.Fault? {
          return check;
        }
        RowWord(Slot(way, line), word);
        return Value(data[Slot(way, line), word]);
      }
      way := Victim(nextWay);
      nextWay := Wrap(nextWay + 1);
      var segfault := FillLine(m, Slot(way, line), LineBase(address));
      tag[Slot(way, line)] := t;
      assert Contents() == Fill(c, m, address);
      if check == Fault(Fatal) {
        return check;
      }
      if segfault || check.Fault? {
        return Fault(AccessViolation);
      }
      RowWord(Slot(way, line), word);
      return Value(data[Slot(way, line), word]);
    }

    lemma RowWord(s: nat, k: nat)
      requires Valid() && s < WAYS * LINES && k < LINE_WORDS
      ensures data[s, k] == Row(s).Get(k)
    {
    }

    /** Reads one line into row s of the data array. */
    method FillLine(m: Mem, s: nat, fill: Word) returns (segfault: bool)
      requires Valid() && s < WAYS * LINES && fill % 16 == 0
      modifies data
      ensures Rows() == old(Rows())[s := LineWords(m, fill)]
      ensures segfault <==> !LineMappedAt(m, fill)
    {
      hide FetchWord, Mapped, LineWords;
      ghost var rows := Rows();
      segfault := false;
      var i := 0;
      while i < LINE_WORDS
        invariant i <= LINE_WORDS
        invariant forall k :: 0 <= k < i ==> data[s, k] == LineWords(m, fill).Get(k)
        invariant forall r :: 0 <= r < WAYS * LINES && r != s ==> Row(r) == rows[r]
        invariant !segfault <==> forall k :: 0 <= k < i ==> Mapped(m, LineAddress(fill, k), 4)
      {
        WordInLine(m, fill, i);
        data[s, i] := FetchWord(m, LineAddress(fill, i));
        segfault := segfault || !Mapped(m, LineAddress(fill, i), 4);
        i := i + 1;
      }
      assert Row(s) == LineWords(m, fill);
    }

    /** Invalidates one line. */
    method Invalidate(address: Word)
      requires Valid()
      modifies tag
      ensures Valid()
      ensures Contents() == Synci(old(Contents()), address)
    {
      ghost var c := Contents();
      var line, t := LineOf(address), TagOf(address);
      var way := 0;
      while way < WAYS
        invariant way <= WAYS
        invariant forall i :: 0 <= i < WAYS * LINES ==>
          tag[i] == if i < way * LINES then Synci(c, address).tag[i] else c.tag[i]
      {
        if tag[Slot(way, line)] == t {
          tag[Slot(way, line)] := 0;
        }
        way := way + 1;
      }
      assert tag[..] == Synci(c, address).tag;
    }
  }
}
