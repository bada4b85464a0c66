/** The boot loader in the firmware: a command parser over the serial input. */
module Tinymon {
  import opened Words
  import opened Text
  import opened Memory
  import opened Base85

  const CMD_CLEAR: Byte := 99      // 'c'
  const CMD_EXECUTE: Byte := 101   // 'e'
  const CMD_LOAD: Byte := 108      // 'l'
  const CMD_READ: Byte := 114      // 'r'
  const CMD_TEST: Byte := 116      // 't'
  const CMD_WRITE: Byte := 119     // 'w'
  const CMD_BLOCK: Byte := 120     // 'x'

  /** The letters in ASCII, and the characters around them. */
  lemma LettersAre()
    ensures [CMD_CLEAR, CMD_EXECUTE, CMD_LOAD, CMD_READ, CMD_TEST, CMD_WRITE, CMD_BLOCK] == Ascii("celrtwx")
    ensures [FIRST, LAST, SPACE, LF, CR] == Ascii("(| \n\r")
  {
  }

  /** The loader between two commands. */
  datatype Mon = Mon(input: Bytes, inError: bool, addr: Word, mem: Mem)

  // ---------------------------------------------------------------------------
  // Reading characters. `c` is the last character read, `rest` the input after it.

  function Lower(b: Byte): Byte {
    if b == CR then LF else if 65 <= b <= 90 then b + 32 else b
  }

  datatype Scan = NoInput | Char(c: Byte, rest: Bytes)

  function Next(inp: Bytes): Scan {
    if inp == [] then NoInput else Char(Lower(inp[0]), inp[1..])
  }

  function SkipSpaces(c: Byte, rest: Bytes): Scan
    decreases rest
  {
    if c != SPACE then Char(c, rest)
    else if rest == [] then NoInput
    else SkipSpaces(Lower(rest[0]), rest[1..])
  }

  /** Reads past spaces and line ends. */
  function SkipLines(inp: Bytes): Scan
    decreases inp
  {
    if inp == [] then NoInput
    else if Lower(inp[0]) == SPACE || Lower(inp[0]) == LF then SkipLines(inp[1..])
    else Char(Lower(inp[0]), inp[1..])
  }

  predicate IsCommand(c: Byte) {
    c == CMD_CLEAR || c == CMD_LOAD || c == CMD_WRITE || c == CMD_READ || c == CMD_EXECUTE ||
    c == CMD_TEST || c == CMD_BLOCK
  }

  /** Reads on until a command letter. */
  function SkipCruft(c: Byte, rest: Bytes): Scan
    decreases rest
  {
    if IsCommand(c) then Char(c, rest)
    else if rest == [] then NoInput
    else SkipCruft(Lower(rest[0]), rest[1..])
  }

  function SkipToLineEnd(c: Byte, rest: Bytes): Scan
    decreases rest
  {
    if c == LF then Char(c, rest)
    else if rest == [] then NoInput
    else SkipToLineEnd(Lower(rest[0]), rest[1..])
  }

  datatype Hex = HexStarved | HexNum(arg: Word, chk: Byte, c: Byte, rest: Bytes)

  /** Reads a number; every digit is added to the checksum. */
  function GetHexnum(arg: Word, chk: Byte, c: Byte, rest: Bytes): Hex
    decreases rest
  {
    if !IsHex(c) then HexNum(arg, chk, c, rest)
    else if rest == [] then HexStarved
    else GetHexnum(Wrap(arg * 16 + HexValue(c)), (chk + c) % 256, Lower(rest[0]), rest[1..])
  }

  // ---------------------------------------------------------------------------
  // Command lines

  /** A command line: the command, its argument, whether it is well-formed, and the last character
      read. */
  datatype Command = NoCommand | Command(cmd: Byte, arg: Word, good: bool, c: Byte, rest: Bytes)

  /** The command letter, after blank lines and cruft. */
  function GetCommand(inp: Bytes): Scan {
    match SkipLines(inp)
    case NoInput => NoInput
    case Char(c, rest) => SkipCruft(c, rest)
  }

  function SpacesAfter(s: Scan): Scan {
    match s
    case NoInput => NoInput
    case Char(c, rest) => SkipSpaces(c, rest)
  }

  /** The argument, and whatever of a checksum follows it. An argument that ends the line needs no
      checksum. */
  function GetLine(inp: Bytes): Command {
    match GetCommand(inp)
    case NoInput => NoCommand
    case Char(cmd, rest) =>
      match SpacesAfter(Next(rest))
      case NoInput => NoCommand
      case Char(c1, rest1) =>
        match GetHexnum(0, cmd, c1, rest1)
        case HexStarved => NoCommand
        case HexNum(arg, good, c2, rest2) =>
          match SkipSpaces(c2, rest2)
          case NoInput => NoCommand
          case Char(c3, rest3) =>
            if c3 == LF then Command(cmd, arg, true, c3, rest3) else CheckLine(cmd, arg, good, c3, rest3)
  }

  function CheckLine(cmd: Byte, arg: Word, good: Byte, c: Byte, rest: Bytes): Command {
    match GetHexnum(0, good, c, rest)
    case HexStarved => NoCommand
    case HexNum(ext, _, c1, rest1) =>
      if good != ext % 256 then Command(cmd, arg, false, c1, rest1)
      else
        match SkipSpaces(c1, rest1)
        case NoInput => NoCommand
        case Char(c2, rest2) => Command(cmd, arg, c2 == LF, c2, rest2)
  }

  // ---------------------------------------------------------------------------
  // Blocks

  /** Receiving a block stores words from addr on until end, and then compares the checksum. An
      unaligned store is an address error. */
  datatype Block = BlockStarved | AddressError | Block(m: Mon)

  function ReceiveBlock(m: Mon, end: Word, sum: Word): Block
    decreases |m.input|
  {
    match GetWord(false, m.input)
    case Starved => BlockStarved
    case Read(w, failed, rest) =>
      if m.addr == end then Block(m.(input := rest, inError := failed || w != Neg(sum)))
      else if failed then Block(m.(input := rest, inError := true))
      else if m.addr % 4 != 0 then AddressError
      else
        GetWordConsumes(false, m.input);
        ReceiveBlock(Mon(rest, m.inError, Wrap(m.addr + 4), StoreWord(m.mem, m.addr, w)), end, Wrap(sum + w))
  }

  lemma {:induction false} D85Consumes(v: Word, failed: bool, inp: Bytes)
    ensures D85(v, failed, inp).Read? ==>
      |D85(v, failed, inp).rest| <= |inp| && (!D85(v, failed, inp).failed ==> |D85(v, failed, inp).rest| < |inp|)
    decreases inp
  {
    if !failed && inp != [] && inp[0] <= SPACE {
      D85Consumes(v, failed, inp[1..]);
    }
  }

  lemma GetWordConsumes(failed: bool, inp: Bytes)
    ensures GetWord(failed, inp).Read? && !GetWord(failed, inp).failed ==> |GetWord(failed, inp).rest| < |inp|
  {
    hide D85;
    var d1 := D85(0, failed, inp);
    D85Consumes(0, failed, inp);
    var d2 := Then85(d1);
    if d1.Read? { D85Consumes(d1.v, d1.failed, d1.rest); }
    var d3 := Then85(d2);
    if d2.Read? { D85Consumes(d2.v, d2.failed, d2.rest); }
    var d4 := Then85(d3);
    if d3.Read? { D85Consumes(d3.v, d3.failed, d3.rest); }
    if d4.Read? { D85Consumes(d4.v, d4.failed, d4.rest); }
    FailedStays(d1);
    FailedStays(d2);
    FailedStays(d3);
    FailedStays(d4);
  }

  lemma FailedStays(d: Digits)
    ensures d.Read? && d.failed ==> Then85(d) == Read(0, true, d.rest)
  {
  }

  // ---------------------------------------------------------------------------
  // Commands

  /** What a turn of the command loop leads to. `ran` is the command that was carried out. */
  datatype Turn = Waiting | Trapped | Done(m: Mon, ran: Byte) | Ignored(m: Mon) | Jump(entry: Word, m: Mon)

  /** Carries out a well-formed command. */
  function RunCommand(m: Mon, cmd: Byte, arg: Word): Turn {
    if m.inError && cmd != CMD_CLEAR && cmd != CMD_TEST then Ignored(m)
    else if cmd == CMD_CLEAR then Done(m.(inError := false), cmd)
    else if cmd == CMD_LOAD then Done(m.(addr := arg), cmd)
    else if cmd == CMD_READ then if m.addr % 4 != 0 then Trapped else Done(m.(addr := Wrap(m.addr + 4)), cmd)
    else if cmd == CMD_EXECUTE then Jump(arg, m)
    else if cmd == CMD_BLOCK then
      match ReceiveBlock(m, Wrap(m.addr + 4 * arg), 0)
      case BlockStarved => Waiting
      case AddressError => Trapped
      case Block(m') => Done(m', cmd)
    else Done(m, cmd)
  }

  function CommandTurn(m: Mon): Turn {
    match GetLine(m.input)
    case NoCommand => Waiting
    case Command(cmd, arg, good, c, rest) =>
      if good then RunCommand(m.(input := rest), cmd, arg)
      else
        match SkipToLineEnd(c, rest)
        case NoInput => Waiting
        case Char(_, rest') => Ignored(m.(input := rest', inError := true))
  }

  /** How the loop ends on a finite input: it waits for more, has trapped, or has jumped. */
  datatype End = Waits(m: Mon) | Traps | Jumps(entry: Word, m: Mon)

  function RunMonitor(m: Mon): End
    decreases |m.input|
  {
    match CommandTurn(m)
    case Waiting => Waits(m)
    case Trapped => Traps
    case Jump(entry, m') => Jumps(entry, m')
    case Done(m', _) => TurnConsumes(m); RunMonitor(m')
    case Ignored(m') => TurnConsumes(m); RunMonitor(m')
  }

  // ---------------------------------------------------------------------------
  // Every turn consumes input

  lemma {:induction false} SkipSpacesConsumes(c: Byte, rest: Bytes)
    ensures SkipSpaces(c, rest).Char? ==> |SkipSpaces(c, rest).rest| <= |rest|
    decreases rest
  {
    if c == SPACE && rest != [] {
      SkipSpacesConsumes(Lower(rest[0]), rest[1..]);
    }
  }

  lemma {:induction false} SkipLinesConsumes(inp: Bytes)
    ensures SkipLines(inp).Char? ==> |SkipLines(inp).rest| < |inp|
    decreases inp
  {
    if inp != [] {
      SkipLinesConsumes(inp[1..]);
    }
  }

  lemma {:induction false} SkipCruftConsumes(c: Byte, rest: Bytes)
    ensures SkipCruft(c, rest).Char? ==> |SkipCruft(c, rest).rest| <= |rest|
    decreases rest
  {
    if !IsCommand(c) && rest != [] {
      SkipCruftConsumes(Lower(rest[0]), rest[1..]);
    }
  }

  lemma {:induction false} SkipToLineEndConsumes(c: Byte, rest: Bytes)
    ensures SkipToLineEnd(c, rest).Char? ==> |SkipToLineEnd(c, rest).rest| <= |rest|
    decreases rest
  {
    if c != LF && rest != [] {
      SkipToLineEndConsumes(Lower(rest[0]), rest[1..]);
    }
  }

  lemma {:induction false} GetHexnumConsumes(arg: Word, chk: Byte, c: Byte, rest: Bytes)
    ensures GetHexnum(arg, chk, c, rest).HexNum? ==> |GetHexnum(arg, chk, c, rest).rest| <= |rest|
    decreases rest
  {
    if IsHex(c) && rest != [] {
      GetHexnumConsumes(Wrap(arg * 16 + HexValue(c)), (chk + c) % 256, Lower(rest[0]), rest[1..]);
    }
  }

  lemma GetLineConsumes(inp: Bytes)
    ensures GetLine(inp).Command? ==> |GetLine(inp).rest| < |inp|
  {
    hide SkipSpaces, SkipLines, SkipCruft, GetHexnum, CheckLine;
    SkipLinesConsumes(inp);
    match SkipLines(inp)
    case NoInput =>
    case Char(c0, rest0) =>
      SkipCruftConsumes(c0, rest0);
      match SkipCruft(c0, rest0)
      case NoInput =>
      case Char(cmd, rest) =>
        match Next(rest)
        case NoInput =>
        case Char(c, r) =>
          SkipSpacesConsumes(c, r);
          match SkipSpaces(c, r)
          case NoInput =>
          case Char(c1, rest1) =>
            GetHexnumConsumes(0, cmd, c1, rest1);
            match GetHexnum(0, cmd, c1, rest1)
            case HexStarved =>
            case HexNum(arg, good, c2, rest2) =>
              SkipSpacesConsumes(c2, rest2);
              match SkipSpaces(c2, rest2)
              case NoInput =>
              case Char(c3, rest3) => CheckLineConsumes(cmd, arg, good, c3, rest3);
  }

  lemma CheckLineConsumes(cmd: Byte, arg: Word, good: Byte, c: Byte, rest: Bytes)
    ensures CheckLine(cmd, arg, good, c, rest).Command? ==> |CheckLine(cmd, arg, good, c, rest).rest| <= |rest|
  {
    hide SkipSpaces, GetHexnum;
    GetHexnumConsumes(0, good, c, rest);
    match GetHexnum(0, good, c, rest)
    case HexStarved =>
    case HexNum(_, _, c1, rest1) => SkipSpacesConsumes(c1, rest1);
  }

  lemma {:induction false} ReceiveBlockConsumes(m: Mon, end: Word, sum: Word)
    ensures ReceiveBlock(m, end, sum).Block? ==> |ReceiveBlock(m, end, sum).m.input| <= |m.input|
    decreases |m.input|
  {
    hide GetWord, StoreWord;
    var d := GetWord(false, m.input);
    GetWordConsumes(false, m.input);
    GetWordShrinks(m.input);
    if d.Read? && m.addr != end && !d.failed && m.addr % 4 == 0 {
      var m' := Mon(d.rest, m.inError, Wrap(m.addr + 4), StoreWord(m.mem, m.addr, d.v));
      ReceiveBlockConsumes(m', end, Wrap(sum + d.v));
    }
  }

  lemma GetWordShrinks(inp: Bytes)
    ensures GetWord(false, inp).Read? ==> |GetWord(false, inp).rest| <= |inp|
  {
    hide D85;
    var d1 := D85(0, false, inp);
    D85Consumes(0, false, inp);
    var d2 := Then85(d1);
    if d1.Read? { D85Consumes(d1.v, d1.failed, d1.rest); }
    var d3 := Then85(d2);
    if d2.Read? { D85Consumes(d2.v, d2.failed, d2.rest); }
    var d4 := Then85(d3);
    if d3.Read? { D85Consumes(d3.v, d3.failed, d3.rest); }
    if d4.Read? { D85Consumes(d4.v, d4.failed, d4.rest); }
  }

  lemma TurnConsumes(m: Mon)
    ensures CommandTurn(m).Done? || CommandTurn(m).Ignored? ==> |CommandTurn(m).m.input| < |m.input|
  {
    hide GetLine, ReceiveBlock, SkipToLineEnd;
    GetLineConsumes(m.input);
    match GetLine(m.input)
    case NoCommand =>
    case Command(cmd, arg, good, c, rest) =>
      SkipToLineEndConsumes(c, rest);
      ReceiveBlockConsumes(m.(input := rest), Wrap(m.addr + 4 * arg), 0);
  }
}
