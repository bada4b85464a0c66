/** The boot loader as the firmware runs it: one state, updated while it reads. A read that finds no
    input would wait for ever; here the method reports it. */
module TinymonUnit {
  import opened Words
  import opened Text
  import opened Memory
  import opened Base85
  import opened Tinymon

  datatype Going = Starving | Trapping | Continuing | Jumping(entry: Word)

  class Loader {
    var input: Bytes
    var c: Byte
    var chk: Byte
    var inError: bool
    var addr: Word
    var mem: Mem

    function State(): Mon
      reads this
    {
      Mon(input, inError, addr, mem)
    }

    constructor (serial: Bytes, m: Mem)
      ensures State() == Mon(serial, false, 0, m)
    {
      input, c, chk, inError, addr, mem := serial, LF, 0, false, 0, m;
    }

    // -------------------------------------------------------------------------
    // Characters

    method SerialInLowercase() returns (ok: bool)
      modifies this`input, this`c
      ensures ok <==> old(input) != []
      ensures ok ==> c == Lower(old(input)[0]) && input == old(input)[1..]
    {
      ok := input != [];
      if ok {
        c, input := Lower(input[0]), input[1..];
      }
    }

    method SkipSpacesHere() returns (ok: bool)
      modifies this`input, this`c
      ensures match SkipSpaces(old(c), old(input))
              case NoInput => !ok
              case Char(d, rest) => ok && c == d && input == rest
    {
      ok := true;
      while c == SPACE
        invariant ok && SkipSpaces(c, input) == SkipSpaces(old(c), old(input))
        decreases |input|
      {
        ok := SerialInLowercase();
        if !ok {
          return;
        }
      }
    }

    /** Past blank lines and cruft to a command letter. */
    method FindCommand() returns (ok: bool)
      modifies this`input, this`c
      ensures match GetCommand(old(input))
              case NoInput => !ok
              case Char(d, rest) => ok && c == d && input == rest
    {
      ok := SerialInLowercase();
      if !ok {
        return;
      }
      while c == SPACE || c == LF
        invariant ok && IsAfter(SkipLines(old(input)), c, input)
        decreases |input|
      {
        ok := SerialInLowercase();
        if !ok {
          return;
        }
      }
      ghost var c0, input0 := c, input;
      while !IsCommand(c)
        invariant ok && SkipCruft(c, input) == SkipCruft(c0, input0)
        decreases |input|
      {
        ok := SerialInLowercase();
        if !ok {
          return;
        }
      }
    }

    /** Whether skipping lines comes to s when c has been read and rest is still to come. */
    static ghost predicate IsAfter(s: Scan, c: Byte, rest: Bytes) {
      s == if c == SPACE || c == LF then SkipLines(rest) else Char(c, rest)
    }

    method SkipLineHere() returns (ok: bool)
      modifies this`input, this`c
      ensures match SkipToLineEnd(old(c), old(input))
              case NoInput => !ok
              case Char(d, rest) => ok && c == d && input == rest
    {
      ok := true;
      while c != LF
        invariant ok && SkipToLineEnd(c, input) == SkipToLineEnd(old(c), old(input))
        decreases |input|
      {
        ok := SerialInLowercase();
        if !ok {
          return;
        }
      }
    }

    method GetNumber() returns (ok: bool, arg: Word)
      modifies this`input, this`c, this`chk
      ensures match GetHexnum(0, old(chk), old(c), old(input))
              case HexStarved => !ok
              case HexNum(a, k, d, rest) => ok && arg == a && chk == k && c == d && input == rest
    {
      ok, arg := true, 0;
      while IsHex(c)
        invariant ok && GetHexnum(arg, chk, c, input) == GetHexnum(0, old(chk), old(c), old(input))
        decreases |input|
      {
        arg := Wrap(arg * 16 + HexValue(c));
        chk := (chk + c) % 256;
        ok := SerialInLowercase();
        if !ok {
          return;
        }
      }
    }

    // -------------------------------------------------------------------------
    // Command lines

    /** Reads a command line up to the point where it is known to be good or bad. */
    method ReadLine() returns (ok: bool, cmd: Byte, arg: Word, good: bool)
      modifies this`input, this`c, this`chk
      ensures match GetLine(old(input))
              case NoCommand => !ok
              case Command(k, a, g, d, rest) => ok && cmd == k && arg == a && good == g && c == d && input == rest
    {
      hide GetCommand, SkipSpaces, GetHexnum;
      cmd, arg, good := 0, 0, true;
      ok := FindCommand();
      if !ok {
        return;
      }
      cmd, chk := c, c;
      ok := SerialInLowercase();
      if !ok {
        return;
      }
      ok := SkipSpacesHere();
      if !ok {
        return;
      }
      ok, arg := GetNumber();
      if !ok {
        return;
      }
      ok := SkipSpacesHere();
      if ok && c != LF {
        ok, good := CheckHere(cmd, arg);
      }
    }

    /** Compares the checksum. */
    method CheckHere(ghost cmd: Byte, ghost arg: Word) returns (ok: bool, good: bool)
      modifies this`input, this`c, this`chk
      ensures match CheckLine(cmd, arg, old(chk), old(c), old(input))
              case NoCommand => !ok
              case Command(_, _, g, d, rest) => ok && good == g && c == d && input == rest
    {
      hide SkipSpaces, GetHexnum;
      var goodChk, ext := chk, 0;
      good := false;
      ok, ext := GetNumber();
      if !ok || goodChk != ext % 256 {
        return;
      }
      ok := SkipSpacesHere();
      good := c == LF;
    }

    // -------------------------------------------------------------------------
    // Blocks

    /** One base-85 digit; once in error, it reads nothing. */
    method NextDigit(v: Word) returns (ok: bool, nv: Word)
      modifies this`input, this`inError
      ensures match D85(v, old(inError), old(input))
              case Starved => !ok
              case Read(w, failed, rest) => ok && nv == w && inError == failed && input == rest
    {
      ok, nv := true, 0;
      if inError {
        return;
      }
      while input != [] && input[0] <= SPACE
        invariant D85(v, false, input) == D85(v, false, old(input)) && !inError
        decreases |input|
      {
        input := input[1..];
      }
      if input == [] {
        return false, 0;
      }
      var d := input[0];
      input := input[1..];
      nv := Wrap(v * 85 + d - FIRST);
      if d < FIRST || LAST < d || nv < v {
        inError, nv := true, 0;
      }
    }

    method GetBase85Word() returns (ok: bool, w: Word)
      modifies this`input, this`inError
      ensures match GetWord(old(inError), old(input))
              case Starved => !ok
              case Read(v, failed, rest) => ok && w == v && inError == failed && input == rest
    {
      hide D85;
      ok, w := NextDigit(0);
      if !ok {
        return;
      }
      ok, w := NextDigit(w);
      if !ok {
        return;
      }
      ok, w := NextDigit(w);
      if !ok {
        return;
      }
      ok, w := NextDigit(w);
      if !ok {
        return;
      }
      ok, w := NextDigit(w);
    }

    /** Receives arg words and their checksum. */
    method ReceiveWords(arg: Word) returns (g: Going)
      requires !inError
      modifies this`input, this`inError, this`addr, this`mem
      ensures match ReceiveBlock(old(State()), Wrap(old(addr) + 4 * arg), 0)
              case BlockStarved => g == Starving
              case AddressError => g == Trapping
              case Block(m) => g == Continuing && State() == m
    {
      hide GetWord, StoreWord, Neg;
      var end: Word, sum: Word := Wrap(addr + 4 * arg), 0;
      while addr != end
        invariant !inError
        invariant ReceiveBlock(State(), end, sum) == ReceiveBlock(old(State()), Wrap(old(addr) + 4 * arg), 0)
        decreases |input|
      {
        GetWordConsumes(false, input);
        var ok, w := GetBase85Word();
        if !ok {
          return Starving;
        }
        if inError {
          return Continuing;
        }
        if addr % 4 != 0 {
          return Trapping;
        }
        sum := Wrap(sum + w);
        mem := StoreWord(mem, addr, w);
        addr := Wrap(addr + 4);
      }
      var ok, k := GetBase85Word();
      if !ok {
        return Starving;
      }
      if k != Neg(sum) {
        inError := true;
      }
      return Continuing;
    }

    // -------------------------------------------------------------------------
    // The command loop

    /** Carries out one well-formed command. */
    method Run(cmd: Byte, arg: Word) returns (g: Going)
      modifies this`input, this`inError, this`addr, this`mem
      ensures Follows(RunCommand(old(State()), cmd, arg), g, State())
      ensures g == Starving ==> !old(inError)
    {
      hide ReceiveBlock;
      g := Continuing;
      if inError && cmd != CMD_CLEAR && cmd != CMD_TEST {
        return;
      }
      if cmd == CMD_CLEAR {
        inError := false;
      } else if cmd == CMD_LOAD {
        addr := arg;
      } else if cmd == CMD_READ {
        if addr % 4 != 0 {
          return Trapping;
        }
        addr := Wrap(addr + 4);
      } else if cmd == CMD_EXECUTE {
        return Jumping(arg);
      } else if cmd == CMD_BLOCK {
        g := ReceiveWords(arg);
      }
    }

    /** How a turn shows in the state. */
    static ghost predicate Follows(t: Turn, g: Going, m: Mon) {
      match t
      case Waiting => g == Starving
      case Trapped => g == Trapping
      case Done(m', _) => g == Continuing && m == m'
      case Ignored(m') => g == Continuing && m == m'
      case Jump(entry, m') => g == Jumping(entry) && m == m'
    }

    method Turn() returns (g: Going)
      modifies this
      ensures Follows(CommandTurn(old(State())), g, State())
      ensures g == Starving && old(inError) ==> inError && mem == old(mem)
    {
      hide GetLine, SkipToLineEnd, RunCommand;
      var ok, cmd, arg, good := ReadLine();
      if !ok {
        return Starving;
      }
      if good {
        g := Run(cmd, arg);
      } else {
        inError := true;
        ok := SkipLineHere();
        g := if ok then Continuing else Starving;
      }
    }

    /** The loop of the firmware's main. */
    method CommandLoop() returns (g: Going)
      modifies this
      ensures match RunMonitor(old(State()))
              case Waits(m) => g == Starving && (m.inError ==> inError && mem == m.mem)
              case Traps => g == Trapping
              case Jumps(entry, m) => g == Jumping(entry) && State() == m
    {
      hide CommandTurn;
      g := Continuing;
      while g == Continuing
        invariant g == Continuing ==> RunMonitor(State()) == RunMonitor(old(State()))
        invariant match g
                  case Continuing => true
                  case Starving =>
                    var end := RunMonitor(old(State()));
                    end.Waits? && (end.m.inError ==> inError && mem == end.m.mem)
                  case Trapping => RunMonitor(old(State())).Traps?
                  case Jumping(entry) => RunMonitor(old(State())) == Jumps(entry, State())
        decreases g == Continuing, |input|
      {
        TurnConsumes(State());
        g := Turn();
      }
    }
  }
}
