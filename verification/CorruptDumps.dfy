/** A dump with one wrong digit, from beginning to end. */
module CorruptDumps {
  import opened Words
  import opened Text
  import opened Memory
  import opened Base85
  import opened Tinymon
  import opened Printer
  import opened LoaderTheorems

  // ---------------------------------------------------------------------------
  // In error

  /** What a loader in error looks for: what follows the first accepted clear command. */
  datatype Clearing = Never | After(rest: Bytes)

  function ClearedAt(inp: Bytes): Clearing
    decreases |inp|
  {
    GetLineConsumes(inp);
    match GetLine(inp)
    case NoCommand => Never
    case Command(cmd, arg, good, c, rest) =>
      if good then if cmd == CMD_CLEAR then After(rest) else ClearedAt(rest)
      else
        SkipToLineEndConsumes(c, rest);
        match SkipToLineEnd(c, rest)
        case NoInput => Never
        case Char(_, rest') => ClearedAt(rest')
  }

  /** A loader in error waits for ever in error, or goes on after the first line of its input that
      reads as an accepted clear command, whatever that line was meant to be; its memory and address
      are untouched either way. */
  lemma {:induction false} RunInError(m: Mon)
    requires m.inError
    ensures match ClearedAt(m.input)
            case Never =>
              RunMonitor(m).Waits? && RunMonitor(m).m == m.(input := RunMonitor(m).m.input)
            case After(rest) =>
              RunMonitor(m) == RunMonitor(m.(input := rest, inError := false))
    decreases |m.input|
  {
    hide GetLine, SkipToLineEnd;
    GetLineConsumes(m.input);
    match GetLine(m.input)
    case NoCommand =>
    case Command(cmd, arg, good, c, rest) =>
      if good {
        if cmd != CMD_CLEAR {
          RunInError(m.(input := rest));
        }
      } else {
        SkipToLineEndConsumes(c, rest);
        match SkipToLineEnd(c, rest)
        case NoInput =>
        case Char(_, rest') => RunInError(m.(input := rest'));
      }
  }

  /** A loader in error stays so for the whole of its input exactly when no line of it reads as an
      accepted clear command. */
  lemma {:induction false} NeverClearedIff(m: Mon)
    requires m.inError
    ensures NeverCleared(m) <==> ClearedAt(m.input).Never?
    decreases |m.input|
  {
    hide GetLine, SkipToLineEnd;
    GetLineConsumes(m.input);
    match GetLine(m.input)
    case NoCommand =>
    case Command(cmd, arg, good, c, rest) =>
      if good {
        if cmd != CMD_CLEAR {
          NeverClearedIff(m.(input := rest));
        }
      } else {
        SkipToLineEndConsumes(c, rest);
        match SkipToLineEnd(c, rest)
        case NoInput =>
        case Char(_, rest') => NeverClearedIff(m.(input := rest'));
      }
  }

  // ---------------------------------------------------------------------------
  // A rejected block

  /** The words stored before the first flagged group. */
  function Kept(gs: seq<Group>): seq<Word> {
    if gs == [] || Flagged(gs[0]) then [] else [Wrap(GroupNumber(gs[0]))] + Kept(gs[1..])
  }

  /** What is left of the input when a block has been rejected: the groups after a flagged one, or
      what follows the checksum. */
  function Unread(gs: seq<Group>, b: nat, rest: Bytes, tail: Bytes): Bytes {
    if gs == [] then tail
    else if Flagged(gs[0]) then LineEndAfter(b) + Body(gs[1..], NextColumn(b), rest)
    else Unread(gs[1..], NextColumn(b), rest, tail)
  }

  /** What a rejected block leaves behind. */
  lemma {:induction false} BlockRejected(m: Mon, pre: Bytes, gs: seq<Group>, b: nat, last: Group, tail: Bytes,
                                         end: Word, n: nat, sum: Word)
    requires LineEnds(pre) && m.input == pre + Body(gs, b, last + ([LF] + tail))
    requires m.addr % 4 == 0 && |gs| == n < 0x4000_0000 && end == Wrap(m.addr + 4 * n)
    requires Rejected(gs, last, sum)
    ensures ReceiveBlock(m, end, sum) ==
            Block(Mon(Unread(gs, b, last + ([LF] + tail), [LF] + tail), true,
                      Wrap(m.addr + 4 * |Kept(gs)|), StoreAll(m.mem, m.addr, Kept(gs))))
    decreases |gs|
  {
    hide ReceiveBlock, Body, Flagged, GroupNumber, StoreWord, Neg;
    var rest := last + ([LF] + tail);
    BodyIs(gs, b, rest);
    WrapOnce(m.addr);
    if gs == [] {
      hide Wrap;
      SumReceived(m, pre, last, [LF] + tail, sum);
    } else {
      EndAhead(m.addr, n);
      NextWordAligned(m.addr);
      WrapDrop(m.addr + 4, 4 * (|Kept(gs)| - 1));
      hide Wrap;
      var pre', body := LineEndAfter(b), Body(gs[1..], NextColumn(b), rest);
      GroupReceived(m, pre, gs[0], pre' + body, end, sum);
      if !Flagged(gs[0]) {
        var w := Wrap(GroupNumber(gs[0]));
        var m' := Mon(pre' + body, m.inError, Wrap(m.addr + 4), StoreWord(m.mem, m.addr, w));
        BlockRejected(m', pre', gs[1..], NextColumn(b), last, tail, end, n - 1, Wrap(sum + w));
        assert Kept(gs)[1..] == Kept(gs[1..]);
      }
    }
  }

  // ---------------------------------------------------------------------------
  // The whole dump

  /** Where the wrong digit is: digit j of word i of section k, or of its checksum for the i after the
      last word, and what it has become. */
  datatype Mistake = Mistake(k: nat, i: nat, j: nat, d: Byte)

  /** The mistake is at a digit of the dump, and changes it. */
  predicate IsMistake(host: Mem, ss: seq<Section>, x: Mistake) {
    x.k < |ss| && Printable(ss[x.k]) && x.i <= ss[x.k].size / 4 && x.j < 5 && FIRST <= x.d <= LAST &&
    var ws := SectionWords(host, ss[x.k]);
    x.d != EncodeWord(if x.i < |ws| then ws[x.i] else Neg(SumWords(ws)))[x.j]
  }

  function WrongGroups(host: Mem, s: Section, x: Mistake): (gs: seq<Group>)
    requires Printable(s) && x.i <= s.size / 4 && x.j < 5 && FIRST <= x.d <= LAST
    ensures |gs| == s.size / 4
  {
    CorruptData(EncodeAll(SectionWords(host, s)), x.i, x.j, x.d)
  }

  function WrongSum(host: Mem, s: Section, x: Mistake): Group
    requires Printable(s) && x.i <= s.size / 4 && x.j < 5 && FIRST <= x.d <= LAST
  {
    var ws := SectionWords(host, s);
    CorruptSum(EncodeAll(ws), EncodeWord(Neg(SumWords(ws))), x.i, x.j, x.d)
  }

  ghost function WrongDump(host: Mem, ss: seq<Section>, entry: Word, x: Mistake): Bytes
    requires AllPrintable(ss) && IsMistake(host, ss, x)
  {
    var s := ss[x.k];
    var block := Body(WrongGroups(host, s, x), 1, WrongSum(host, s, x) + ([LF] + Remaining(host, ss, entry, x.k)));
    CommandBytes(CMD_CLEAR, 0, SectionsBytes(host, ss[..x.k],
      CommandBytes(CMD_LOAD, s.start, CommandBytes(CMD_BLOCK, s.size / 4, block))))
  }

  /** What is printed after section k. */
  ghost function Remaining(host: Mem, ss: seq<Section>, entry: Word, k: nat): Bytes
    requires AllPrintable(ss) && k < |ss|
  {
    SectionsBytes(host, ss[k + 1..], CommandBytes(CMD_EXECUTE, entry, []))
  }

  /** The loader when it has rejected the wrong block. */
  ghost predicate HasRejected(e: Mon, was: Mem, host: Mem, ss: seq<Section>, entry: Word, x: Mistake)
    requires AllPrintable(ss) && IsMistake(host, ss, x)
  {
    var s := ss[x.k];
    var gs, tail := WrongGroups(host, s, x), [LF] + Remaining(host, ss, entry, x.k);
    e.inError && e.input == Unread(gs, 1, WrongSum(host, s, x) + tail, tail) &&
    exists m: Mem :: Loaded(m, was, host, ss[..x.k]) && e.mem == StoreAll(m, s.start, Kept(gs))
  }

  lemma WrongGroupsRejected(host: Mem, s: Section, ss: seq<Section>, x: Mistake)
    requires IsMistake(host, ss, x) && s == ss[x.k]
    ensures Rejected(WrongGroups(host, s, x), WrongSum(host, s, x), 0)
  {
    hide EncodeWord, SumWords, Neg, Rejected, CorruptData, CorruptSum, SectionWords;
    var ws := SectionWords(host, s);
    PrintedAccepted(ws);
    WrongDigitRejected(EncodeAll(ws), EncodeWord(Neg(SumWords(ws))), x.i, x.j, x.d);
  }

  /** Receiving the wrong section. */
  lemma WrongSectionTurns(m: Mon, pre: Bytes, s: Section, gs: seq<Group>, last: Group, cont: Bytes) returns (e: Mon)
    requires LineEnds(pre) && !m.inError && Printable(s) && |gs| == s.size / 4 && Rejected(gs, last, 0)
    requires m.input == pre + CommandBytes(CMD_LOAD, s.start,
                          CommandBytes(CMD_BLOCK, s.size / 4, Body(gs, 1, last + ([LF] + cont))))
    ensures e == Mon(Unread(gs, 1, last + ([LF] + cont), [LF] + cont), true,
                     Wrap(s.start + 4 * |Kept(gs)|), StoreAll(m.mem, s.start, Kept(gs)))
    ensures RunMonitor(m) == RunMonitor(e)
  {
    hide GetLine, CommandBytes, ReceiveBlock, Body, Rejected, Unread, Kept, StoreAll, Wrap;
    var block := Body(gs, 1, last + ([LF] + cont));
    var next := CommandBytes(CMD_BLOCK, s.size / 4, block);
    CommandReads(pre, CMD_LOAD, s.start, next);
    var m1 := Mon([LF] + next, false, s.start, m.mem);
    assert CommandTurn(m) == Done(m1, CMD_LOAD);
    CommandReads([LF], CMD_BLOCK, s.size / 4, block);
    var m2 := Mon([LF] + block, false, s.start, m.mem);
    BlockRejected(m2, [LF], gs, 1, last, cont, Wrap(s.start + 4 * (s.size / 4)), s.size / 4, 0);
    e := ReceiveBlock(m2, Wrap(s.start + 4 * (s.size / 4)), 0).m;
    assert CommandTurn(m1) == RunCommand(m2, CMD_BLOCK, s.size / 4);
    assert CommandTurn(m1) == Done(e, CMD_BLOCK);
  }

  /** A dump with one wrong digit: the sections before it are loaded, the wrong one is stored up to
      the mistake and rejected, and then the loader waits in error for ever, unless some later line
      happens to read as an accepted clear command; in that case it goes on from there with what it
      has. */
  lemma WrongDumpRuns(m: Mon, host: Mem, ss: seq<Section>, entry: Word, x: Mistake) returns (e: Mon)
    requires AllPrintable(ss) && IsMistake(host, ss, x) && m.input == WrongDump(host, ss, entry, x)
    ensures HasRejected(e, m.mem, host, ss, entry, x) && RunMonitor(m) == RunMonitor(e)
    ensures match ClearedAt(e.input)
            case Never => RunMonitor(m).Waits? && RunMonitor(m).m.inError && RunMonitor(m).m.mem == e.mem
            case After(rest) => RunMonitor(m) == RunMonitor(e.(input := rest, inError := false))
  {
    hide CommandBytes, SectionsBytes, RunMonitor, ClearedAt, Unread, Kept, StoreAll, Body, Loaded;
    hide WrongGroups, WrongSum, Rejected, EncodeWord, Remaining;
    var s, cont := ss[x.k], Remaining(host, ss, entry, x.k);
    var gs, last := WrongGroups(host, s, x), WrongSum(host, s, x);
    var block := Body(gs, 1, last + ([LF] + cont));
    var wrong := CommandBytes(CMD_LOAD, s.start, CommandBytes(CMD_BLOCK, s.size / 4, block));
    WrongGroupsRejected(host, s, ss, x);
    var m1 := ClearTurn(m, SectionsBytes(host, ss[..x.k], wrong));
    var pre, m2 := SectionsTurns(m1, [LF], host, ss[..x.k], wrong);
    e := WrongSectionTurns(m2, pre, s, gs, last, cont);
    RunInError(e);
  }

  // ---------------------------------------------------------------------------
  // A dump that clears its own error

  /** The first section is one word, the second sixteen zeros and a 59; the text of the latter's
      words ends in the letter of the clear command. */
  const FIRST_SECTION: Section := Section(0x4000_0000, 4)
  const SECOND_SECTION: Section := Section(0x4000_1000, 68)
  const WORD_59: Word := 0x4000_1040
  const LAST_DIGIT: Mistake := Mistake(0, 0, 4, FIRST + 1)

  function ZerosThen59(n: nat): (ws: seq<Word>)
    ensures |ws| == n + 1
  {
    if n == 0 then [59] else [0] + ZerosThen59(n - 1)
  }

  lemma SkipOne(c: Byte, d: Byte, rest: Bytes)
    requires !IsCommand(c)
    ensures SkipCruft(c, [d] + rest) == SkipCruft(Lower(d), rest)
  {
    assert ([d] + rest)[1..] == rest;
  }

  lemma SkipGroup(c: Byte, g: Group, rest: Bytes)
    requires !IsCommand(c) && forall i :: 0 <= i < 4 ==> !IsCommand(Lower(g[i]))
    ensures SkipCruft(c, g + rest) == SkipCruft(Lower(g[4]), rest)
  {
    hide SkipCruft, IsCommand, Lower;
    var d := Lower(g[3]);
    assert g + rest == [g[0]] + ([g[1]] + ([g[2]] + ([g[3]] + ([g[4]] + rest))));
    SkipOne(c, g[0], [g[1]] + ([g[2]] + ([g[3]] + ([g[4]] + rest))));
    SkipOne(Lower(g[0]), g[1], [g[2]] + ([g[3]] + ([g[4]] + rest)));
    SkipOne(Lower(g[1]), g[2], [g[3]] + ([g[4]] + rest));
    SkipOne(Lower(g[2]), g[3], [g[4]] + rest);
    SkipOne(d, g[4], rest);
  }

  lemma ZeroGroup()
    ensures EncodeWord(0) == [40, 40, 40, 40, 40]
  {
  }

  lemma SkipZero(c: Byte, rest: Bytes)
    requires !IsCommand(c)
    ensures SkipCruft(c, EncodeWord(0) + rest) == SkipCruft(FIRST, rest)
  {
    hide SkipCruft, EncodeWord;
    ZeroGroup();
    SkipGroup(c, EncodeWord(0), rest);
  }

  lemma Skip59(c: Byte, rest: Bytes)
    requires !IsCommand(c)
    ensures SkipCruft(c, EncodeWord(59) + rest) == Char(CMD_CLEAR, rest)
  {
    hide SkipCruft;
    var g: Group := [40, 40, 40, 40, 99];
    assert EncodeWord(59) == g;
    hide EncodeWord;
    SkipGroup(c, g, rest);
    AtCommand(rest);
  }

  /** The loader skips the zeros' text to the last digit of 59. */
  lemma {:induction false} ZerosSkipped(n: nat, c: Byte, rest: Bytes)
    requires n <= 16 && !IsCommand(c)
    ensures SkipCruft(c, Body(EncodeAll(ZerosThen59(n)), 17 - n, rest)) == Char(CMD_CLEAR, [LF] + rest)
  {
    hide SkipCruft, Body, EncodeWord, Lower;
    var gs := EncodeAll(ZerosThen59(n));
    BodyIs(gs, 17 - n, rest);
    if n == 0 {
      assert gs[1..] == [];
      BodyIs([], 1, rest);
      Skip59(c, [LF] + rest);
    } else {
      assert gs[1..] == EncodeAll(ZerosThen59(n - 1));
      var more := Body(gs[1..], 18 - n, rest);
      assert [] + more == more;
      SkipZero(c, more);
      ZerosSkipped(n - 1, FIRST, rest);
    }
  }

  lemma AtCommand(rest: Bytes)
    ensures SkipCruft(CMD_CLEAR, rest) == Char(CMD_CLEAR, rest)
  {
  }

  /** A clear letter right before a line end is a whole command line. */
  lemma BareClear(inp: Bytes, rest: Bytes)
    requires GetCommand(inp) == Char(CMD_CLEAR, [LF] + rest)
    ensures GetLine(inp) == Command(CMD_CLEAR, 0, true, LF, rest)
  {
    hide GetCommand;
    assert ([LF] + rest)[1..] == rest;
    assert GetHexnum(0, CMD_CLEAR, LF, rest) == HexNum(0, CMD_CLEAR, LF, rest);
  }

  /** The first line of the second section's text reads as a clear command. */
  lemma DataReadsAsClear(rest: Bytes)
    ensures GetLine([LF] + Body(EncodeAll(ZerosThen59(16)), 1, rest)) == Command(CMD_CLEAR, 0, true, LF, rest)
  {
    hide SkipCruft, GetLine, EncodeWord;
    var gs := EncodeAll(ZerosThen59(16));
    var body := Body(gs, 1, rest);
    assert ([LF] + body)[1..] == body;
    ZeroGroup();
    assert body == [FIRST] + body[1..];
    SkipOne(0, FIRST, body[1..]);
    ZerosSkipped(16, 0, rest);
    assert SkipLines(body) == Char(FIRST, body[1..]);
    assert SkipLines([LF] + body) == SkipLines(body);
    BareClear([LF] + body, rest);
  }

  lemma SumGroup()
    ensures Neg(59) == 0xFFFF_FFC5 && EncodeWord(0xFFFF_FFC5) == [122, 63, 94, 51, 67]
  {
    WrapOnce(0x1_0000_0000 - 59);
    hide Wrap;
  }

  /** So does its checksum. */
  lemma ChecksumReadsAsClear(rest: Bytes)
    ensures GetLine(EncodeWord(Neg(59)) + ([LF] + rest)) == Command(CMD_CLEAR, 0, true, LF, rest)
  {
    hide SkipCruft, GetLine, EncodeWord, Neg;
    SumGroup();
    var g: Group := [122, 63, 94, 51, 67];
    var inp := g + ([LF] + rest);
    assert inp == [122] + inp[1..];
    SkipOne(0, 122, inp[1..]);
    SkipGroup(0, g, [LF] + rest);
    AtCommand([LF] + rest);
    assert SkipLines(inp) == Char(122, inp[1..]);
    BareClear(inp, rest);
  }

  lemma {:induction false} SumOfZeros(n: nat)
    ensures SumWords(ZerosThen59(n)) == 59
  {
    WrapOnce(59);
    assert ZerosThen59(0)[1..] == [];
    if n > 0 {
      SumOfZeros(n - 1);
    }
  }

  lemma HostSections(host: Mem)
    requires host == StoreWord(map[], WORD_59, 59)
    ensures Printable(FIRST_SECTION) && SectionWords(host, FIRST_SECTION) == [0]
    ensures Printable(SECOND_SECTION) && SectionWords(host, SECOND_SECTION) == ZerosThen59(16)
  {
    hide FetchWord, StoreWord, ZerosThen59;
    LonelyWord(WORD_59, 59);
    forall i | 0 <= i < 17 ensures SectionWords(host, SECOND_SECTION)[i] == ZerosThen59(16)[i] {
      ZerosAt(16, i);
    }
  }

  lemma {:induction false} ZerosAt(n: nat, i: nat)
    requires i <= n
    ensures ZerosThen59(n)[i] == if i == n then 59 else 0
  {
    if i > 0 {
      ZerosAt(n - 1, i - 1);
    }
  }

  /** The loader in error clears the error in the second section's text, and then jumps. */
  lemma JumpsAnyway(e: Mon, host: Mem, entry: Word)
    requires host == StoreWord(map[], WORD_59, 59) && e.inError && Printable(SECOND_SECTION)
    requires e.input == [LF] + SectionBytes(host, SECOND_SECTION, CommandBytes(CMD_EXECUTE, entry, []))
    ensures RunMonitor(e).Jumps? && RunMonitor(e).entry == entry && RunMonitor(e).m.mem == e.mem
  {
    hide CommandBytes, GetLine, Body, EncodeWord, SumWords, ZerosThen59, StoreWord, SectionWords;
    HostSections(host);
    SumOfZeros(16);
    var ws, last := ZerosThen59(16), CommandBytes(CMD_EXECUTE, entry, []);
    var sum := EncodeWord(Neg(59)) + ([LF] + last);
    var next := CommandBytes(CMD_BLOCK, 17, BlockBytes(ws, last));
    CommandReads([LF], CMD_LOAD, SECOND_SECTION.start, next);
    CommandReads([LF], CMD_BLOCK, 17, BlockBytes(ws, last));
    DataReadsAsClear(sum);
    ChecksumReadsAsClear(last);
    CommandReads([], CMD_EXECUTE, entry, []);
    assert last == [] + last;
    var m1 := e.(input := [LF] + next);
    var m2 := e.(input := [LF] + BlockBytes(ws, last));
    var m3 := e.(input := sum, inError := false);
    var m4 := m3.(input := last);
    assert RunMonitor(e) == RunMonitor(m1) by { assert CommandTurn(e) == Ignored(m1); }
    assert RunMonitor(m1) == RunMonitor(m2) by { assert CommandTurn(m1) == Ignored(m2); }
    assert RunMonitor(m2) == RunMonitor(m3) by { assert CommandTurn(m2) == Done(m3, CMD_CLEAR); }
    assert RunMonitor(m3) == RunMonitor(m4) by { assert CommandTurn(m3) == Done(m4, CMD_CLEAR); }
    assert CommandTurn(m4) == Jump(entry, m4.(input := [LF]));
  }

  lemma LastDigitWrong(host: Mem, ss: seq<Section>)
    requires host == StoreWord(map[], WORD_59, 59) && ss == [FIRST_SECTION, SECOND_SECTION]
    ensures AllPrintable(ss) && IsMistake(host, ss, LAST_DIGIT)
  {
    hide EncodeWord, StoreWord, SumWords, Neg;
    HostSections(host);
    ZeroGroup();
  }

  /** The first section's only word has become 1, and is kept; its checksum is wrong. */
  lemma OneIsKept(host: Mem)
    requires host == StoreWord(map[], WORD_59, 59) && Printable(FIRST_SECTION)
    ensures Kept(WrongGroups(host, FIRST_SECTION, LAST_DIGIT)) == [1]
    ensures forall rest, tail :: Unread(WrongGroups(host, FIRST_SECTION, LAST_DIGIT), 1, rest, tail) == tail
  {
    hide StoreWord, EncodeWord, SectionWords;
    HostSections(host);
    ZeroGroup();
    var gs := WrongGroups(host, FIRST_SECTION, LAST_DIGIT);
    assert gs[0] == [40, 40, 40, 40, 41];
    assert GroupNumber(gs[0]) == 1;
    assert gs[1..] == [];
    WrapOnce(1);
  }

  /** A dump whose one wrong digit the loader catches, and which it runs nevertheless: the text of
      the next section clears the error, and the loader jumps to the entry point with a word other
      than the host's. */
  lemma CaughtButRun(m: Mon, host: Mem, ss: seq<Section>, entry: Word)
    requires host == StoreWord(map[], WORD_59, 59) && ss == [FIRST_SECTION, SECOND_SECTION]
    ensures AllPrintable(ss) && IsMistake(host, ss, LAST_DIGIT)
    ensures m.input == WrongDump(host, ss, entry, LAST_DIGIT) ==>
              RunMonitor(m).Jumps? && RunMonitor(m).entry == entry && !Loaded(RunMonitor(m).m.mem, m.mem, host, ss)
  {
    hide RunMonitor, StoreWord, WrongGroups, WrongSum, CommandBytes, Kept, Unread, IsMistake, WrongDump, ClearedAt;
    hide SectionBytes, SectionsBytes, LoadWord, Loaded, StoreAll;
    LastDigitWrong(host, ss);
    if m.input == WrongDump(host, ss, entry, LAST_DIGIT) {
      var e := WrongDumpRuns(m, host, ss, entry, LAST_DIGIT);
      OneIsKept(host);
      SecondRemains(host, ss, entry);
      JumpsAnyway(e, host, entry);
      var was :| e.mem == StoreAll(was, FIRST_SECTION.start, [1]);
      StoreAllWrites(was, FIRST_SECTION.start, [1], FIRST_SECTION.start);
      NotTheHosts(e.mem, m.mem, host, ss);
    }
  }

  lemma SecondRemains(host: Mem, ss: seq<Section>, entry: Word)
    requires ss == [FIRST_SECTION, SECOND_SECTION] && AllPrintable(ss)
    ensures Remaining(host, ss, entry, 0) == SectionBytes(host, SECOND_SECTION, CommandBytes(CMD_EXECUTE, entry, []))
  {
    hide SectionBytes, CommandBytes;
    var last := CommandBytes(CMD_EXECUTE, entry, []);
    assert ss[1..] == [SECOND_SECTION];
    assert SectionsBytes(host, [SECOND_SECTION][1..], last) == last;
  }

  lemma NotTheHosts(now: Mem, was: Mem, host: Mem, ss: seq<Section>)
    requires host == StoreWord(map[], WORD_59, 59) && ss == [FIRST_SECTION, SECOND_SECTION]
    requires LoadWord(now, FIRST_SECTION.start) == 1
    ensures !Loaded(now, was, host, ss)
  {
    hide LoadWord, FetchWord, StoreWord;
    var a := FIRST_SECTION.start;
    LonelyWord(WORD_59, 59);
    assert ss[0].start <= a < ss[0].start + ss[0].size;
    assert InSections(ss, a);
  }
}
