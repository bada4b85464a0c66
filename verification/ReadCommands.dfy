/** The read command moves the address: where a block ends up that is loaded after it. */
module ReadCommands {
  import opened Words
  import opened Text
  import opened Memory
  import opened Base85
  import opened Tinymon
  import opened Printer
  import opened LoaderTheorems

  /** A line of the input is an accepted command, with the rest of the input after it. */
  predicate AcceptedLine(inp: Bytes, cmd: Byte, arg: Word, rest: Bytes) {
    var l := GetLine(inp);
    l.Command? && l.good && l.cmd == cmd && l.arg == arg && l.rest == rest
  }

  /** The input begins with k accepted read commands, whatever their arguments. */
  ghost predicate ReadLines(k: nat, inp: Bytes, rest: Bytes) {
    if k == 0 then inp == rest
    else exists arg: Word, next: Bytes :: AcceptedLine(inp, CMD_READ, arg, next) && ReadLines(k - 1, next, rest)
  }

  /** A read command at an aligned address takes the loader to the next word. */
  lemma OneRead(m: Mon, arg: Word, rest: Bytes)
    requires !m.inError && m.addr % 4 == 0 && AcceptedLine(m.input, CMD_READ, arg, rest)
    ensures RunMonitor(m) == RunMonitor(m.(input := rest, addr := Wrap(m.addr + 4)))
  {
    hide GetLine, Wrap;
  }

  /** At any other address it is an address error. */
  lemma UnalignedRead(m: Mon, arg: Word, rest: Bytes)
    requires !m.inError && AcceptedLine(m.input, CMD_READ, arg, rest)
    ensures RunMonitor(m).Traps? <== m.addr % 4 != 0
  {
    hide GetLine, Wrap;
  }

  lemma {:induction false} ReadsMove(k: nat, m: Mon, rest: Bytes)
    requires !m.inError && m.addr % 4 == 0 && ReadLines(k, m.input, rest)
    ensures Wrap(m.addr + 4 * k) % 4 == 0
    ensures RunMonitor(m) == RunMonitor(m.(input := rest, addr := Wrap(m.addr + 4 * k)))
    decreases k
  {
    hide RunMonitor, AcceptedLine;
    if k == 0 {
      WrapOnce(m.addr);
    } else {
      var arg, next :| AcceptedLine(m.input, CMD_READ, arg, next) && ReadLines(k - 1, next, rest);
      OneRead(m, arg, next);
      NextWordAligned(m.addr);
      WrapDrop(m.addr + 4, 4 * (k - 1));
      hide Wrap;
      ReadsMove(k - 1, m.(input := next, addr := Wrap(m.addr + 4)), rest);
    }
  }

  /** Word i of a block of at most the whole address space lands 4i past the start, also around the
      top of the address space, and nothing else changes. */
  lemma {:induction false} StoreAllWraps(m: Mem, addr: Word, ws: seq<Word>, p: Word)
    requires addr % 4 == 0 && p % 4 == 0 && |ws| <= 0x4000_0000
    ensures var d := Wrap(p - addr);
            LoadWord(StoreAll(m, addr, ws), p) == if d < 4 * |ws| then ws[d / 4] else LoadWord(m, p)
    decreases |ws|
  {
    hide StoreWord, LoadWord;
    var d := Wrap(p - addr);
    if ws != [] {
      NextWordAligned(addr);
      DistanceShrinks(addr, p);
      hide Wrap;
      LoadAfterStore(m, addr, ws[0], p);
      StoreAllWraps(StoreWord(m, addr, ws[0]), Wrap(addr + 4), ws[1..], p);
    }
  }

  lemma DistanceShrinks(addr: Word, p: Word)
    requires addr % 4 == 0 && p % 4 == 0
    ensures var d, d' := Wrap(p - addr), Wrap(p - Wrap(addr + 4));
            (d == 0 <==> addr == p) &&
            if d == 0 then d' == 0x1_0000_0000 - 4 else d >= 4 && d' == d - 4 && d / 4 == d' / 4 + 1
  {
    var d := p - addr + if p < addr then 0x1_0000_0000 else 0;
    WrapOnce(p - addr + 0x1_0000_0000);
    WrapDrop(0x1_0000_0000, p - addr);
    WordRange(addr);
    assert p == p / 4 * 4 && addr == addr / 4 * 4;
    DivModUnique(d, 4, p / 4 - addr / 4 + if p < addr then 0x4000_0000 else 0, 0);
    NextWordAligned(addr);
    WrapOnce(p - Wrap(addr + 4) + 0x1_0000_0000);
    WrapDrop(0x1_0000_0000, p - Wrap(addr + 4));
    hide Wrap;
  }

  /** A block loaded at a and k reads: word i is at a + 4(k + i), and everything else as before. */
  ghost predicate LoadedAt(now: Mem, was: Mem, a: Word, k: nat, ws: seq<Word>) {
    forall p: Word :: p % 4 == 0 ==>
      LoadWord(now, p) == var d := (p - a - 4 * k) % 0x1_0000_0000; if d < 4 * |ws| then ws[d / 4] else LoadWord(was, p)
  }

  lemma AllLoadedAt(m: Mem, a: Word, k: nat, start: Word, ws: seq<Word>)
    requires start % 4 == 0 && start == Wrap(a + 4 * k) && |ws| <= 0x4000_0000
    ensures LoadedAt(StoreAll(m, start, ws), m, a, k, ws)
  {
    hide LoadWord, StoreAll;
    forall p: Word | p % 4 == 0
      ensures LoadWord(StoreAll(m, start, ws), p) ==
              var d := (p - a - 4 * k) % 0x1_0000_0000; if d < 4 * |ws| then ws[d / 4] else LoadWord(m, p)
    {
      StoreAllWraps(m, start, ws, p);
      SameDistance(a, k, p);
    }
  }

  lemma SameDistance(a: Word, k: nat, p: Word)
    ensures Wrap(p - Wrap(a + 4 * k)) == (p - a - 4 * k) % 0x1_0000_0000
  {
    var x := a + 4 * k;
    WrapDrop(x, 0);
    assert p - x == p - Wrap(x) + -(x / 0x1_0000_0000) * 0x1_0000_0000;
    DivModUnique(p - x, 0x1_0000_0000, (p - Wrap(x)) / 0x1_0000_0000 - x / 0x1_0000_0000, Wrap(p - Wrap(x)));
  }

  /** A load command, k reads and an accepted block of n words: the run goes on with word i at
      a + 4(k + i) modulo 2^32, everything else as before, and the address after the block. */
  lemma LoadReadsBlock(m: Mon, a: Word, in1: Bytes, k: nat, in2: Bytes, n: Word, pre: Bytes, gs: seq<Group>,
                       last: Group, tail: Bytes) returns (m': Mon)
    requires !m.inError && a % 4 == 0 && AcceptedLine(m.input, CMD_LOAD, a, in1) && ReadLines(k, in1, in2)
    requires AcceptedLine(in2, CMD_BLOCK, n, pre + Body(gs, 1, last + ([LF] + tail)))
    requires LineEnds(pre) && |gs| == n < 0x4000_0000 && !Rejected(gs, last, 0)
    ensures RunMonitor(m) == RunMonitor(m') && LoadedAt(m'.mem, m.mem, a, k, GroupWords(gs))
    ensures m'.input == [LF] + tail && !m'.inError && m'.addr == (a + 4 * (k + n)) % 0x1_0000_0000
  {
    hide GetLine, ReceiveBlock, Body, Rejected, StoreAll, GroupWords, LoadedAt, ReadLines;
    var m1 := Mon(in1, false, a, m.mem);
    assert CommandTurn(m) == Done(m1, CMD_LOAD);
    ReadsMove(k, m1, in2);
    var start := Wrap(a + 4 * k);
    WrapDrop(a + 4 * k, 4 * n);
    hide Wrap;
    var m2 := Mon(in2, false, start, m.mem);
    var m3 := m2.(input := pre + Body(gs, 1, last + ([LF] + tail)));
    var end := Wrap(start + 4 * n);
    BlockReads(m3, pre, gs, 1, last, tail, end, n, 0);
    AllLoadedAt(m.mem, a, k, start, GroupWords(gs));
    m' := Mon([LF] + tail, false, end, StoreAll(m.mem, start, GroupWords(gs)));
    assert CommandTurn(m2) == Done(m', CMD_BLOCK);
  }

  // ---------------------------------------------------------------------------
  // Printed lines

  /** Read commands as the printer would print them. */
  function ReadBytes(args: seq<Word>, rest: Bytes): Bytes
    decreases |args|
  {
    if args == [] then rest else CommandBytes(CMD_READ, args[0], ReadBytes(args[1..], rest))
  }

  /** What follows printed read commands, with the line end that the last of them leaves. */
  function AfterReads(pre: Bytes, args: seq<Word>, rest: Bytes): Bytes {
    (if args == [] then pre else [LF]) + rest
  }

  lemma {:induction false} PrintedReads(pre: Bytes, args: seq<Word>, rest: Bytes)
    requires LineEnds(pre)
    ensures ReadLines(|args|, pre + ReadBytes(args, rest), AfterReads(pre, args, rest))
    decreases |args|
  {
    hide GetLine, CommandBytes;
    if args != [] {
      CommandReads(pre, CMD_READ, args[0], ReadBytes(args[1..], rest));
      PrintedReads([LF], args[1..], rest);
      assert AcceptedLine(pre + ReadBytes(args, rest), CMD_READ, args[0], [LF] + ReadBytes(args[1..], rest));
    }
  }

  /** The same for printed commands. */
  lemma PrintedReadsThenBlock(m: Mon, a: Word, args: seq<Word>, gs: seq<Group>, last: Group, tail: Bytes)
    returns (m': Mon)
    requires !m.inError && a % 4 == 0 && |gs| < 0x4000_0000 && !Rejected(gs, last, 0)
    requires m.input == CommandBytes(CMD_LOAD, a, ReadBytes(args,
                          CommandBytes(CMD_BLOCK, |gs|, Body(gs, 1, last + ([LF] + tail)))))
    ensures RunMonitor(m) == RunMonitor(m') && LoadedAt(m'.mem, m.mem, a, |args|, GroupWords(gs))
    ensures m'.input == [LF] + tail && !m'.inError && m'.addr == (a + 4 * (|args| + |gs|)) % 0x1_0000_0000
  {
    hide GetLine, RunMonitor, Body, Rejected, GroupWords, LoadedAt, ReadLines, CommandBytes, ReadBytes;
    var block := Body(gs, 1, last + ([LF] + tail));
    var rest := CommandBytes(CMD_BLOCK, |gs|, block);
    assert m.input == [] + m.input;
    CommandReads([], CMD_LOAD, a, ReadBytes(args, rest));
    PrintedReads([LF], args, rest);
    CommandReads([LF], CMD_BLOCK, |gs|, block);
    m' := LoadReadsBlock(m, a, [LF] + ReadBytes(args, rest), |args|, [LF] + rest, |gs|, [LF], gs, last, tail);
  }
}
