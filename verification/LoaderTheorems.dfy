/** The printer and the loader undo each other, and the loader catches corrupted blocks. */
module LoaderTheorems {
  import opened Words
  import opened Text
  import opened Memory
  import opened Base85
  import opened Tinymon
  import opened Printer

  // ---------------------------------------------------------------------------
  // Numbers

  function Horner(arg: Word, ds: Bytes): Word
    requires forall i :: 0 <= i < |ds| ==> IsHex(ds[i])
    decreases |ds|
  {
    if ds == [] then arg else Horner(Wrap(arg * 16 + HexValue(ds[0])), ds[1..])
  }

  lemma {:induction false} HornerSnoc(arg: Word, ds: Bytes, d: Byte)
    requires IsHex(d) && forall i :: 0 <= i < |ds| ==> IsHex(ds[i])
    ensures Horner(arg, ds + [d]) == Wrap(Horner(arg, ds) * 16 + HexValue(d))
    decreases |ds|
  {
    if ds == [] {
      assert ds + [d] == [d];
      assert [d][1..] == [];
    } else {
      assert (ds + [d])[1..] == ds[1..] + [d];
      HornerSnoc(Wrap(arg * 16 + HexValue(ds[0])), ds[1..], d);
    }
  }

  lemma {:induction false} HornerOfDigits(v: Word)
    ensures Horner(0, HexDigits(v)) == v
  {
    if v < 16 {
      assert [HexDigit(v)][1..] == [];
      WrapOnce(v);
    } else {
      HornerOfDigits(v / 16);
      HornerSnoc(0, HexDigits(v / 16), HexDigit(v % 16));
      WrapOnce(v);
    }
  }

  /** Reading digits up to something that is none. */
  lemma {:induction false} HexnumReads(arg: Word, chk: Byte, ds: Bytes, e: Byte, rest: Bytes)
    requires ds != [] && forall i :: 0 <= i < |ds| ==> IsHex(ds[i]) && Lower(ds[i]) == ds[i]
    requires !IsHex(Lower(e))
    ensures GetHexnum(arg, chk, ds[0], ds[1..] + ([e] + rest)) ==
            HexNum(Horner(arg, ds), SumBytes(chk, ds), Lower(e), rest)
    decreases |ds|
  {
    var arg', chk', tail := Wrap(arg * 16 + HexValue(ds[0])), (chk + ds[0]) % 256, ds[1..] + ([e] + rest);
    if |ds| == 1 {
      assert ds[1..] == [];
      assert tail == [e] + rest;
      assert tail[1..] == rest;
      assert GetHexnum(arg', chk', Lower(e), rest) == HexNum(arg', chk', Lower(e), rest);
    } else {
      assert tail[0] == ds[1] && tail[1..] == ds[1..][1..] + ([e] + rest);
      HexnumReads(arg', chk', ds[1..], e, rest);
    }
  }

  // ---------------------------------------------------------------------------
  // Command lines

  predicate LineEnds(pre: Bytes) {
    pre == [] || pre == [LF]
  }

  lemma SkipLinesReads(pre: Bytes, cmd: Byte, rest: Bytes)
    requires LineEnds(pre) && IsCommand(cmd)
    ensures GetCommand(pre + ([cmd] + rest)) == Char(cmd, rest)
  {
    var inp := pre + ([cmd] + rest);
    if pre == [] {
      assert inp == [cmd] + rest;
      assert inp[1..] == rest;
    } else {
      assert inp[1..] == [cmd] + rest;
      assert ([cmd] + rest)[1..] == rest;
      assert SkipLines(inp) == SkipLines([cmd] + rest);
    }
  }

  lemma ChecksumReads(cmd: Byte, arg: Word, chk: Byte, rest: Bytes)
    ensures CheckLine(cmd, arg, chk, HexDigit(chk / 16), [HexDigit(chk % 16), CR, LF] + rest) ==
            Command(cmd, arg, true, LF, [LF] + rest)
  {
    hide GetHexnum, Horner, HexDigit, SumBytes;
    var ds := [HexDigit(chk / 16), HexDigit(chk % 16)];
    assert ds[1..] + ([CR] + ([LF] + rest)) == [HexDigit(chk % 16), CR, LF] + rest;
    HexnumReads(0, chk, ds, CR, [LF] + rest);
    HornerTwo(chk);
  }

  lemma HornerTwo(chk: Byte)
    ensures Horner(0, [HexDigit(chk / 16), HexDigit(chk % 16)]) == chk
  {
    var ds := [HexDigit(chk / 16), HexDigit(chk % 16)];
    hide HexDigit, Wrap;
    assert ds[1..] == [HexDigit(chk % 16)];
    assert ds[1..][1..] == [];
    WrapOnce(chk / 16);
    WrapOnce(chk);
    assert Horner(0, ds) == Horner(Wrap(0 * 16 + chk / 16), ds[1..]);
    assert Horner(chk / 16, ds[1..]) == Horner(Wrap(chk / 16 * 16 + chk % 16), ds[1..][1..]);
  }

  /** A printed command, after the end of the line before, is read back. */
  lemma CommandReads(pre: Bytes, cmd: Byte, val: Word, rest: Bytes)
    requires LineEnds(pre) && IsCommand(cmd)
    ensures GetLine(pre + CommandBytes(cmd, val, rest)) == Command(cmd, val, true, LF, [LF] + rest)
  {
    hide GetCommand, GetHexnum, CheckLine, Checksum, HexDigits;
    var ds, chk := HexDigits(val), Checksum(cmd, val);
    var tail := ds + ChecksumBytes(chk, rest);
    SkipLinesReads(pre, cmd, tail);
    var more := [HexDigit(chk / 16), HexDigit(chk % 16), CR, LF] + rest;
    assert ChecksumBytes(chk, rest) == [SPACE] + more;
    assert tail[0] == ds[0] && tail[1..] == ds[1..] + ([SPACE] + more);
    assert SpacesAfter(Next(tail)) == Char(ds[0], ds[1..] + ([SPACE] + more));
    HexnumReads(0, cmd, ds, SPACE, more);
    ChecksumIs(cmd, val);
    HornerOfDigits(val);
    assert more[1..] == [HexDigit(chk % 16), CR, LF] + rest;
    SpaceThenDigit(more);
    ChecksumReads(cmd, val, chk, rest);
  }

  lemma ChecksumIs(cmd: Byte, val: Word)
    ensures Checksum(cmd, val) == SumBytes(cmd, HexDigits(val))
  {
  }

  lemma SpaceThenDigit(more: Bytes)
    requires more != [] && IsHex(more[0]) && Lower(more[0]) == more[0]
    ensures SkipSpaces(SPACE, more) == Char(more[0], more[1..])
  {
    assert SkipSpaces(more[0], more[1..]) == Char(more[0], more[1..]);
  }

  // ---------------------------------------------------------------------------
  // Blocks

  /** Memory after storing words from addr on. */
  function StoreAll(m: Mem, addr: Word, ws: seq<Word>): Mem
    requires addr % 4 == 0
    decreases |ws|
  {
    if ws == [] then m
    else
      NextWordAligned(addr);
      StoreAll(StoreWord(m, addr, ws[0]), Wrap(addr + 4), ws[1..])
  }

  lemma NextWordAligned(addr: Word)
    requires addr % 4 == 0
    ensures Wrap(addr + 4) % 4 == 0
    ensures Wrap(addr + 4) == if addr + 4 < 0x1_0000_0000 then addr + 4 else 0
  {
    WordRange(addr);
    WrapOnce(addr + 4);
    DivModUnique(addr + 4, 4, addr / 4 + 1, 0);
  }

  function GroupWords(gs: seq<Group>): (ws: seq<Word>)
    ensures |ws| == |gs|
  {
    if gs == [] then [] else [Wrap(GroupNumber(gs[0]))] + GroupWords(gs[1..])
  }

  /** Whether the loader finds fault with a block: a digit flagged, or a sum that is not zero. */
  predicate Rejected(gs: seq<Group>, last: Group, sum: Word) {
    if gs == [] then Flagged(last) || Wrap(GroupNumber(last)) != Neg(sum)
    else Flagged(gs[0]) || Rejected(gs[1..], last, Wrap(sum + Wrap(GroupNumber(gs[0]))))
  }

  lemma EndAhead(addr: Word, n: nat)
    requires 0 < n < 0x4000_0000
    ensures Wrap(addr + 4 * n) != addr
    ensures Wrap(Wrap(addr + 4) + 4 * (n - 1)) == Wrap(addr + 4 * n)
  {
    WrapOnce(addr + 4 * n);
    WrapOnce(addr + 4);
    WrapOnce(Wrap(addr + 4) + 4 * (n - 1));
  }

  /** Receiving one group that is not the last. */
  lemma GroupReceived(m: Mon, pad: Bytes, g: Group, rest: Bytes, end: Word, sum: Word)
    requires LineEnds(pad) && m.input == pad + (g + rest) && m.addr != end && m.addr % 4 == 0
    ensures ReceiveBlock(m, end, sum) ==
            if Flagged(g) then Block(m.(input := rest, inError := true))
            else
              var w := Wrap(GroupNumber(g));
              ReceiveBlock(Mon(rest, m.inError, Wrap(m.addr + 4), StoreWord(m.mem, m.addr, w)), end, Wrap(sum + w))
  {
    hide GetWord, Flagged, GroupNumber, StoreWord, Neg, Wrap;
    GroupReads(pad, g, rest);
  }

  /** Receiving the checksum. */
  lemma SumReceived(m: Mon, pad: Bytes, g: Group, rest: Bytes, sum: Word)
    requires LineEnds(pad) && m.input == pad + (g + rest)
    ensures ReceiveBlock(m, m.addr, sum) ==
            Block(m.(input := rest, inError := Flagged(g) || Wrap(GroupNumber(g)) != Neg(sum)))
  {
    hide GetWord, Flagged, GroupNumber, StoreWord, Wrap, Neg;
    GroupReads(pad, g, rest);
  }

  /** What follows the first group of a block: a line end after every seventeenth. */
  function LineEndAfter(b: nat): Bytes {
    if b > 16 then [LF] else []
  }

  function NextColumn(b: nat): nat {
    if b > 16 then 1 else b + 1
  }

  lemma BodyIs(gs: seq<Group>, b: nat, rest: Bytes)
    ensures Body(gs, b, rest) ==
            if gs == [] then rest else gs[0] + (LineEndAfter(b) + Body(gs[1..], NextColumn(b), rest))
  {
    if gs != [] {
      assert [] + Body(gs[1..], NextColumn(b), rest) == Body(gs[1..], NextColumn(b), rest);
    }
  }

  /** Receiving any groups, laid out as a block: rejected or stored. */
  lemma {:induction false} BlockReads(m: Mon, pre: Bytes, gs: seq<Group>, b: nat, last: Group, tail: Bytes,
                                      end: Word, n: nat, sum: Word)
    requires LineEnds(pre) && m.input == pre + Body(gs, b, last + ([LF] + tail))
    requires m.addr % 4 == 0 && |gs| == n < 0x4000_0000 && end == Wrap(m.addr + 4 * n)
    ensures var r := ReceiveBlock(m, end, sum);
            r.Block? && (r.m.inError <==> Rejected(gs, last, sum)) &&
            (!Rejected(gs, last, sum) ==>
               r.m == Mon([LF] + tail, false, end, StoreAll(m.mem, m.addr, GroupWords(gs))))
    decreases |gs|
  {
    hide ReceiveBlock, Body, Flagged, GroupNumber, StoreWord, Neg;
    var rest := last + ([LF] + tail);
    BodyIs(gs, b, rest);
    if gs == [] {
      WrapOnce(m.addr);
      hide Wrap;
      SumReceived(m, pre, last, [LF] + tail, sum);
    } else {
      EndAhead(m.addr, n);
      NextWordAligned(m.addr);
      hide Wrap;
      var pre', body := LineEndAfter(b), Body(gs[1..], NextColumn(b), rest);
      GroupReceived(m, pre, gs[0], pre' + body, end, sum);
      if !Flagged(gs[0]) {
        var w := Wrap(GroupNumber(gs[0]));
        var m' := Mon(pre' + body, m.inError, Wrap(m.addr + 4), StoreWord(m.mem, m.addr, w));
        BlockReads(m', pre', gs[1..], NextColumn(b), last, tail, end, n - 1, Wrap(sum + w));
      }
    }
  }

  lemma EncodedNotFlagged(w: Word)
    ensures !Flagged(EncodeWord(w)) && Wrap(GroupNumber(EncodeWord(w))) == w
  {
    EncodeIsExact(w);
    WrapOnce(w);
    hide EncodeWord, GroupNumber, HighNumber;
  }

  lemma {:induction false} EncodedWords(ws: seq<Word>)
    ensures GroupWords(EncodeAll(ws)) == ws
  {
    hide EncodeWord;
    if ws == [] {
    } else {
      EncodedNotFlagged(ws[0]);
      assert EncodeAll(ws)[1..] == EncodeAll(ws[1..]);
      EncodedWords(ws[1..]);
    }
  }

  /** What the printer prints is accepted. */
  lemma {:induction false} EncodedAccepted(ws: seq<Word>, sum: Word)
    ensures !Rejected(EncodeAll(ws), EncodeWord(Neg(Wrap(sum + SumWords(ws)))), sum)
    decreases |ws|
  {
    hide EncodeWord, GroupNumber, Flagged, Neg;
    if ws == [] {
      WrapOnce(sum);
      EncodedNotFlagged(Neg(sum));
    } else {
      AddAssociates(sum, ws[0], SumWords(ws[1..]));
      hide Wrap;
      EncodedNotFlagged(ws[0]);
      assert EncodeAll(ws)[1..] == EncodeAll(ws[1..]);
      EncodedAccepted(ws[1..], Wrap(sum + ws[0]));
    }
  }

  // ---------------------------------------------------------------------------
  // Loading

  /** Storing a block writes its words, and no others. */
  lemma {:induction false} StoreAllWrites(m: Mem, addr: Word, ws: seq<Word>, a: Word)
    requires addr % 4 == 0 && a % 4 == 0 && addr + 4 * |ws| < 0x1_0000_0000
    ensures LoadWord(StoreAll(m, addr, ws), a) ==
            if addr <= a < addr + 4 * |ws| then ws[(a - addr) / 4] else LoadWord(m, a)
    decreases |ws|
  {
    hide StoreWord, LoadWord;
    if ws == [] {
    } else {
      NextWordAligned(addr);
      LoadAfterStore(m, addr, ws[0], a);
      StoreAllWrites(StoreWord(m, addr, ws[0]), Wrap(addr + 4), ws[1..], a);
      if addr <= a {
        IndexFromHere(addr, a);
      }
    }
  }

  lemma IndexFromHere(addr: Word, a: Word)
    requires addr % 4 == 0 && a % 4 == 0 && addr <= a
    ensures a == addr || a >= addr + 4
    ensures a >= addr + 4 ==> (a - addr) / 4 == (a - (addr + 4)) / 4 + 1
  {
    assert a == a / 4 * 4 && addr == addr / 4 * 4;
    DivModUnique(a - addr, 4, a / 4 - addr / 4, 0);
    DivModUnique(a - (addr + 4), 4, a / 4 - addr / 4 - 1, 0);
  }

  function AfterSection(m: Mem, host: Mem, s: Section): Mem
    requires Printable(s)
  {
    StoreAll(m, s.start, SectionWords(host, s))
  }

  lemma SectionTurns(m: Mon, pre: Bytes, host: Mem, s: Section, cont: Bytes)
    requires Printable(s) && LineEnds(pre) && !m.inError
    requires m.input == pre + SectionBytes(host, s, cont)
    ensures RunMonitor(m) == RunMonitor(Mon([LF] + cont, false, s.start + s.size, AfterSection(m.mem, host, s)))
  {
    hide GetLine, CommandBytes, BlockBytes, ReceiveBlock, SectionWords, StoreAll;
    var ws := SectionWords(host, s);
    var block := BlockBytes(ws, cont);
    var next := CommandBytes(CMD_BLOCK, s.size / 4, block);
    CommandReads(pre, CMD_LOAD, s.start, next);
    var m1 := Mon([LF] + next, false, s.start, m.mem);
    assert CommandTurn(m) == Done(m1, CMD_LOAD);
    CommandReads([LF], CMD_BLOCK, s.size / 4, block);
    var m2 := Mon([LF] + block, false, s.start, m.mem);
    DivModUnique(s.size, 4, s.size / 4, 0);
    WrapOnce(s.start + s.size);
    PrintedBlockLoads(m2, ws, cont, s.start + s.size);
    var m3 := Mon([LF] + cont, false, s.start + s.size, AfterSection(m.mem, host, s));
    assert CommandTurn(m1) == RunCommand(m2, CMD_BLOCK, s.size / 4);
    assert CommandTurn(m1) == Done(m3, CMD_BLOCK);
  }

  lemma PrintedBlockLoads(m: Mon, ws: seq<Word>, cont: Bytes, end: Word)
    requires !m.inError && m.input == [LF] + BlockBytes(ws, cont)
    requires m.addr % 4 == 0 && |ws| < 0x4000_0000 && end == Wrap(m.addr + 4 * |ws|)
    ensures ReceiveBlock(m, end, 0) == Block(Mon([LF] + cont, false, end, StoreAll(m.mem, m.addr, ws)))
  {
    hide EncodeWord, Neg, Rejected, ReceiveBlock, Body, StoreAll, SumWords, EncodeAll, GroupWords;
    EncodedWords(ws);
    PrintedAccepted(ws);
    BlockReads(m, [LF], EncodeAll(ws), 1, EncodeWord(Neg(SumWords(ws))), cont, end, |ws|, 0);
  }

  lemma PrintedAccepted(ws: seq<Word>)
    ensures !Rejected(EncodeAll(ws), EncodeWord(Neg(SumWords(ws))), 0)
  {
    hide EncodeWord, Neg, Rejected, SumWords, EncodeAll;
    var sum := SumWords(ws);
    EncodedAccepted(ws, 0);
    WrapOnce(sum);
    assert Wrap(0 + sum) == sum;
  }

  ghost predicate InSections(ss: seq<Section>, a: Word) {
    exists i :: 0 <= i < |ss| && ss[i].start <= a < ss[i].start + ss[i].size
  }

  /** Every word of every section is as on the host, and every other word as it was. */
  ghost predicate Loaded(now: Mem, was: Mem, host: Mem, ss: seq<Section>) {
    forall a: Word :: a % 4 == 0 ==>
      LoadWord(now, a) == if InSections(ss, a) then FetchWord(host, a) else LoadWord(was, a)
  }

  /** Running through sections: what follows them is run from a memory with all of them loaded. */
  lemma {:induction false} SectionsTurns(m: Mon, pre: Bytes, host: Mem, ss: seq<Section>, cont: Bytes)
    returns (pre': Bytes, m': Mon)
    requires AllPrintable(ss) && LineEnds(pre) && !m.inError && m.input == pre + SectionsBytes(host, ss, cont)
    ensures LineEnds(pre') && m'.input == pre' + cont && !m'.inError && Loaded(m'.mem, m.mem, host, ss)
    ensures RunMonitor(m) == RunMonitor(m')
    decreases |ss|
  {
    hide SectionBytes, AfterSection, CommandTurn, Loaded, LoadWord, RunMonitor;
    if ss == [] {
      NothingLoaded(m.mem, host);
      pre', m' := pre, m;
    } else {
      var rest := SectionsBytes(host, ss[1..], cont);
      SectionTurns(m, pre, host, ss[0], rest);
      var m1 := Mon([LF] + rest, false, ss[0].start + ss[0].size, AfterSection(m.mem, host, ss[0]));
      pre', m' := SectionsTurns(m1, [LF], host, ss[1..], cont);
      LoadedAfter(m'.mem, m.mem, host, ss);
    }
  }

  lemma NothingLoaded(m: Mem, host: Mem)
    ensures Loaded(m, m, host, [])
  {
    hide LoadWord, FetchWord;
  }

  lemma SectionWrites(m: Mem, host: Mem, s: Section, a: Word)
    requires Printable(s) && a % 4 == 0
    ensures LoadWord(AfterSection(m, host, s), a) ==
            if s.start <= a < s.start + s.size then FetchWord(host, a) else LoadWord(m, a)
  {
    hide LoadWord, FetchWord, StoreAll;
    DivModUnique(s.size, 4, s.size / 4, 0);
    StoreAllWrites(m, s.start, SectionWords(host, s), a);
    if s.start <= a < s.start + s.size {
      var i := (a - s.start) / 4;
      assert a == a / 4 * 4 && s.start == s.start / 4 * 4;
      DivModUnique(a - s.start, 4, a / 4 - s.start / 4, 0);
      assert SectionWords(host, s)[i] == FetchWord(host, WordAddress(s, i));
    }
  }

  /** Loading the first section and then the others loads them all. */
  lemma LoadedAfter(now: Mem, was: Mem, host: Mem, ss: seq<Section>)
    requires ss != [] && Printable(ss[0]) && Loaded(now, AfterSection(was, host, ss[0]), host, ss[1..])
    ensures Loaded(now, was, host, ss)
  {
    hide LoadWord, FetchWord, AfterSection, Printable, InSections;
    forall a: Word | a % 4 == 0
      ensures LoadWord(now, a) == if InSections(ss, a) then FetchWord(host, a) else LoadWord(was, a)
    {
      SectionWrites(was, host, ss[0], a);
      InSectionsStep(ss, a);
    }
  }

  lemma InSectionsStep(ss: seq<Section>, a: Word)
    requires ss != []
    ensures InSections(ss, a) <==> ss[0].start <= a < ss[0].start + ss[0].size || InSections(ss[1..], a)
  {
    if InSections(ss[1..], a) {
      var i :| 0 <= i < |ss[1..]| && ss[1..][i].start <= a < ss[1..][i].start + ss[1..][i].size;
      assert ss[i + 1] == ss[1..][i];
    }
    if InSections(ss, a) && !(ss[0].start <= a < ss[0].start + ss[0].size) {
      var i :| 0 <= i < |ss| && ss[i].start <= a < ss[i].start + ss[i].size;
      assert ss[1..][i - 1] == ss[i];
    }
  }

  /** The clear command at the start of a dump. */
  lemma ClearTurn(m: Mon, cont: Bytes) returns (m1: Mon)
    requires m.input == CommandBytes(CMD_CLEAR, 0, cont)
    ensures m1 == Mon([LF] + cont, false, m.addr, m.mem) && RunMonitor(m) == RunMonitor(m1)
  {
    hide CommandBytes, GetLine;
    assert m.input == [] + CommandBytes(CMD_CLEAR, 0, cont);
    CommandReads([], CMD_CLEAR, 0, cont);
    m1 := Mon([LF] + cont, false, m.addr, m.mem);
    assert CommandTurn(m) == Done(m1, CMD_CLEAR);
  }

  /** Loading a dump, from whatever state: the loader ends without error by jumping to the entry
      point, with every word of every section as it is on the host, and every other word as before. */
  lemma DumpLoads(m: Mon, host: Mem, ss: seq<Section>, entry: Word)
    requires AllPrintable(ss) && m.input == DumpBytes(host, ss, entry)
    ensures var r := RunMonitor(m);
            r.Jumps? && r.entry == entry && !r.m.inError && Loaded(r.m.mem, m.mem, host, ss)
  {
    hide CommandBytes, SectionsBytes, GetLine, Loaded, AllPrintable;
    var last := CommandBytes(CMD_EXECUTE, entry, []);
    var m1 := ClearTurn(m, SectionsBytes(host, ss, last));
    var pre, m2 := SectionsTurns(m1, [LF], host, ss, last);
    CommandReads(pre, CMD_EXECUTE, entry, []);
  }

  // ---------------------------------------------------------------------------
  // Corruption

  predicate AnyFlagged(gs: seq<Group>) {
    gs != [] && (Flagged(gs[0]) || AnyFlagged(gs[1..]))
  }

  function Total(gs: seq<Group>): nat {
    if gs == [] then 0 else GroupNumber(gs[0]) + Total(gs[1..])
  }

  /** A block is accepted exactly when no digit is flagged and its numbers, the checksum's among
      them, add up to zero. */
  lemma {:induction false} AcceptedIff(gs: seq<Group>, last: Group, sum: Word)
    ensures !Rejected(gs, last, sum) <==>
            !AnyFlagged(gs) && !Flagged(last) && Wrap(sum + Total(gs) + GroupNumber(last)) == 0
    decreases |gs|
  {
    hide GroupNumber, Flagged;
    if gs == [] {
      NegIff(GroupNumber(last), sum);
    } else {
      var w, rest := Wrap(GroupNumber(gs[0])), Total(gs[1..]) + GroupNumber(last);
      AcceptedIff(gs[1..], last, Wrap(sum + w));
      WrapDrop(sum + w, rest);
      WrapDrop(GroupNumber(gs[0]), sum + rest);
    }
  }

  lemma NegIff(x: nat, sum: Word)
    ensures Wrap(x) == Neg(sum) <==> Wrap(sum + x) == 0
  {
    WrapDrop(x, sum);
    WrapOnce(Wrap(x) + sum);
    WrapOnce(0x1_0000_0000 - sum);
  }

  lemma {:induction false} TotalChanges(gs: seq<Group>, i: nat, g: Group)
    requires i < |gs|
    ensures Total(gs[i := g]) == Total(gs) + GroupNumber(g) - GroupNumber(gs[i])
    decreases |gs|
  {
    hide GroupNumber;
    if i == 0 {
      assert gs[0 := g][1..] == gs[1..];
    } else {
      assert gs[i := g][1..] == gs[1..][i - 1 := g];
      TotalChanges(gs[1..], i - 1, g);
    }
  }

  lemma ShiftedSum(x: int, d: int)
    requires Wrap(x) == 0 && Wrap(x + d) == 0
    ensures d % 0x1_0000_0000 == 0
  {
    WrapDrop(x, d);
    assert Wrap(x + d) == Wrap(d);
  }

  /** A block with its data groups, or its checksum for the index after the last, changed in one
      digit. */
  function CorruptData(gs: seq<Group>, i: nat, j: nat, d: Byte): (gs': seq<Group>)
    requires i <= |gs| && j < 5 && FIRST <= d <= LAST
    ensures |gs'| == |gs|
  {
    if i < |gs| then gs[i := WithDigit(gs[i], j, d)] else gs
  }

  function CorruptSum(gs: seq<Group>, last: Group, i: nat, j: nat, d: Byte): Group
    requires i <= |gs| && j < 5 && FIRST <= d <= LAST
  {
    if i < |gs| then last else WithDigit(last, j, d)
  }

  /** Any single wrong digit in an accepted block makes it rejected. */
  lemma WrongDigitRejected(gs: seq<Group>, last: Group, i: nat, j: nat, d: Byte)
    requires !Rejected(gs, last, 0) && i <= |gs| && j < 5 && FIRST <= d <= LAST
    requires d != (if i < |gs| then gs[i] else last)[j]
    ensures Rejected(CorruptData(gs, i, j, d), CorruptSum(gs, last, i, j, d), 0)
  {
    hide GroupNumber, Flagged, Rejected, WithDigit, Weight, Wrap;
    var g := if i < |gs| then gs[i] else last;
    var gs', last' := CorruptData(gs, i, j, d), CorruptSum(gs, last, i, j, d);
    DigitChangesNumber(g, j, d);
    if i < |gs| {
      TotalChanges(gs, i, WithDigit(g, j, d));
    }
    AcceptedIff(gs, last, 0);
    AcceptedIff(gs', last', 0);
    var x, delta := Total(gs) + GroupNumber(last), (d - g[j]) * Weight(j);
    assert Total(gs') + GroupNumber(last') == x + delta;
    WeightNotZero(j, d - g[j]);
    if !Rejected(gs', last', 0) {
      assert Wrap(0 + x) == Wrap(x) && Wrap(0 + (x + delta)) == Wrap(x + delta);
      ShiftedSum(x, delta);
    }
  }

  /** Receiving a printed block with one wrong digit, in the data or in the checksum, leaves the
      loader in error. */
  lemma CorruptionCaught(m: Mon, pre: Bytes, ws: seq<Word>, i: nat, j: nat, d: Byte, tail: Bytes)
    requires LineEnds(pre) && !m.inError && m.addr % 4 == 0 && |ws| < 0x4000_0000
    requires i <= |ws| && j < 5 && FIRST <= d <= LAST
    requires d != EncodeWord(if i < |ws| then ws[i] else Neg(SumWords(ws)))[j]
    requires var gs, last := EncodeAll(ws), EncodeWord(Neg(SumWords(ws)));
             m.input == pre + CommandBytes(CMD_BLOCK, |ws|,
               Body(CorruptData(gs, i, j, d), 1, CorruptSum(gs, last, i, j, d) + ([LF] + tail)))
    ensures CommandTurn(m).Done? && CommandTurn(m).m.inError
  {
    hide EncodeWord, SumWords, Neg, Rejected, Body, CommandBytes, CorruptData, CorruptSum, CommandTurn;
    var gs, last := EncodeAll(ws), EncodeWord(Neg(SumWords(ws)));
    PrintedAccepted(ws);
    WrongDigitRejected(gs, last, i, j, d);
    BlockCommand(m, pre, CorruptData(gs, i, j, d), CorruptSum(gs, last, i, j, d), |ws|, tail);
  }

  /** The block command on any groups leaves the loader in error exactly when it rejects them. */
  lemma BlockCommand(m: Mon, pre: Bytes, gs: seq<Group>, last: Group, n: nat, tail: Bytes)
    requires LineEnds(pre) && !m.inError && m.addr % 4 == 0 && |gs| == n < 0x4000_0000
    requires m.input == pre + CommandBytes(CMD_BLOCK, n, Body(gs, 1, last + ([LF] + tail)))
    ensures CommandTurn(m).Done? && (CommandTurn(m).m.inError <==> Rejected(gs, last, 0))
  {
    hide Rejected, ReceiveBlock, Body, StoreAll, CommandBytes, GetLine, Wrap, GroupWords;
    var block := Body(gs, 1, last + ([LF] + tail));
    CommandReads(pre, CMD_BLOCK, n, block);
    BlockReads(m.(input := [LF] + block), [LF], gs, 1, last, tail, Wrap(m.addr + 4 * n), n, 0);
  }

  /** While in error, a turn writes no memory and does not jump, and only an accepted clear command
      ends it. */
  lemma ErrorIsLatched(m: Mon)
    requires m.inError
    ensures match CommandTurn(m)
            case Waiting => true
            case Trapped => false
            case Jump(_, _) => false
            case Ignored(m') => m'.mem == m.mem && m'.inError
            case Done(m', ran) => m'.mem == m.mem && m'.addr == m.addr && (m'.inError <==> ran != CMD_CLEAR)
  {
  }

  predicate NeverCleared(m: Mon)
    decreases |m.input|
  {
    TurnConsumes(m);
    match CommandTurn(m)
    case Done(m', ran) => ran != CMD_CLEAR && NeverCleared(m')
    case Ignored(m') => NeverCleared(m')
    case _ => true
  }

  /** On every input without an accepted clear command, a loader in error ends up waiting, with its
      memory untouched. */
  lemma {:induction false} LatchedUntilCleared(m: Mon)
    requires m.inError && NeverCleared(m)
    ensures RunMonitor(m).Waits? && RunMonitor(m).m.mem == m.mem && RunMonitor(m).m.inError
    decreases |m.input|
  {
    hide CommandTurn;
    ErrorIsLatched(m);
    TurnConsumes(m);
    match CommandTurn(m)
    case Waiting =>
    case Done(m', _) => LatchedUntilCleared(m');
    case Ignored(m') => LatchedUntilCleared(m');
  }
}
