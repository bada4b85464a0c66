/** Command lines in small letters or capitals, ended in any way, are read the same. */
module LetterCase {
  import opened Words
  import opened Text
  import opened Base85
  import opened Tinymon

  /** The same character, the same letter of the other case, or another line end. */
  predicate SameCharacter(x: Byte, y: Byte) {
    x == y || (97 <= x <= 122 && y == x - 32) || (65 <= x <= 90 && y == x + 32) ||
    (x == 10 && y == 13) || (x == 13 && y == 10)
  }

  predicate SameText(a: Bytes, b: Bytes) {
    |a| == |b| && forall i :: 0 <= i < |a| ==> SameCharacter(a[i], b[i])
  }

  /** The loader takes exactly these characters for each other. */
  lemma LowerIff(x: Byte, y: Byte)
    ensures Lower(x) == Lower(y) <==> SameCharacter(x, y)
  {
  }

  /** It sees a line end as a line feed, and every letter as a small one. */
  lemma LowerIs(x: Byte)
    ensures Lower(13) == 10
    ensures 65 <= x <= 90 ==> Lower(x) == x + 32
    ensures !(65 <= x <= 90) && x != 13 ==> Lower(x) == x
  {
  }

  lemma FirstSame(a: Bytes, b: Bytes)
    requires SameText(a, b) && a != []
    ensures Lower(a[0]) == Lower(b[0]) && SameText(a[1..], b[1..])
  {
    LowerIff(a[0], b[0]);
    hide SameCharacter, Lower;
  }

  predicate SameScan(s: Scan, s': Scan) {
    match s
    case NoInput => s'.NoInput?
    case Char(c, rest) => s'.Char? && s'.c == c && SameText(rest, s'.rest)
  }

  lemma {:induction false} SkipSpacesSame(c: Byte, a: Bytes, b: Bytes)
    requires SameText(a, b)
    ensures SameScan(SkipSpaces(c, a), SkipSpaces(c, b))
    decreases |a|
  {
    if c == SPACE && a != [] {
      hide SameText, Lower;
      LengthsSame(a, b);
      FirstSame(a, b);
      SkipSpacesSame(Lower(a[0]), a[1..], b[1..]);
    }
  }

  lemma LengthsSame(a: Bytes, b: Bytes)
    requires SameText(a, b)
    ensures |a| == |b|
  {
  }

  lemma {:induction false} SkipLinesSame(a: Bytes, b: Bytes)
    requires SameText(a, b)
    ensures SameScan(SkipLines(a), SkipLines(b))
    decreases |a|
  {
    hide SameText, Lower;
    LengthsSame(a, b);
    if a != [] {
      FirstSame(a, b);
      SkipLinesSame(a[1..], b[1..]);
    }
  }

  lemma {:induction false} SkipCruftSame(c: Byte, a: Bytes, b: Bytes)
    requires SameText(a, b)
    ensures SameScan(SkipCruft(c, a), SkipCruft(c, b))
    decreases |a|
  {
    hide SameText, Lower, IsCommand;
    LengthsSame(a, b);
    if a != [] {
      FirstSame(a, b);
      SkipCruftSame(Lower(a[0]), a[1..], b[1..]);
    }
  }

  predicate SameHex(h: Hex, h': Hex) {
    match h
    case HexStarved => h'.HexStarved?
    case HexNum(arg, chk, c, rest) =>
      h'.HexNum? && h'.arg == arg && h'.chk == chk && h'.c == c && SameText(rest, h'.rest)
  }

  lemma {:induction false} GetHexnumSame(arg: Word, chk: Byte, c: Byte, a: Bytes, b: Bytes)
    requires SameText(a, b)
    ensures SameHex(GetHexnum(arg, chk, c, a), GetHexnum(arg, chk, c, b))
    decreases |a|
  {
    hide SameText, Lower, IsHex, HexValue, Wrap;
    LengthsSame(a, b);
    if IsHex(c) && a != [] {
      FirstSame(a, b);
      GetHexnumSame(Wrap(arg * 16 + HexValue(c)), (chk + c) % 256, Lower(a[0]), a[1..], b[1..]);
    }
  }

  predicate SameCommand(l: Command, l': Command) {
    match l
    case NoCommand => l'.NoCommand?
    case Command(cmd, arg, good, c, rest) =>
      l'.Command? && l'.cmd == cmd && l'.arg == arg && l'.good == good && l'.c == c && SameText(rest, l'.rest)
  }

  lemma CheckLineSame(cmd: Byte, arg: Word, good: Byte, c: Byte, a: Bytes, b: Bytes)
    requires SameText(a, b)
    ensures SameCommand(CheckLine(cmd, arg, good, c, a), CheckLine(cmd, arg, good, c, b))
  {
    hide SameText, GetHexnum, SkipSpaces;
    GetHexnumSame(0, good, c, a, b);
    var h, h' := GetHexnum(0, good, c, a), GetHexnum(0, good, c, b);
    if h.HexNum? {
      SkipSpacesSame(h.c, h.rest, h'.rest);
    }
  }

  lemma GetCommandSame(a: Bytes, b: Bytes)
    requires SameText(a, b)
    ensures SameScan(GetCommand(a), GetCommand(b))
  {
    hide SameText, SkipLines, SkipCruft;
    SkipLinesSame(a, b);
    var s, s' := SkipLines(a), SkipLines(b);
    if s.Char? {
      SkipCruftSame(s.c, s.rest, s'.rest);
    }
  }

  lemma ArgumentStarts(a: Bytes, b: Bytes)
    requires SameText(a, b)
    ensures SameScan(SpacesAfter(Next(a)), SpacesAfter(Next(b)))
  {
    hide SameText, SkipSpaces, Lower;
    LengthsSame(a, b);
    if a != [] {
      FirstSame(a, b);
      SkipSpacesSame(Lower(a[0]), a[1..], b[1..]);
    }
  }

  /** Inputs that differ in the case of letters and in line ends have the same first command, with the
      same argument and the same verdict on its checksum, and what follows it differs no more. */
  lemma LineSame(a: Bytes, b: Bytes)
    requires SameText(a, b)
    ensures SameCommand(GetLine(a), GetLine(b))
  {
    hide SameText, GetCommand, SkipSpaces, SpacesAfter, Next, GetHexnum, CheckLine;
    GetCommandSame(a, b);
    var s, s' := GetCommand(a), GetCommand(b);
    if s.Char? {
      ArgumentStarts(s.rest, s'.rest);
      var t, t' := SpacesAfter(Next(s.rest)), SpacesAfter(Next(s'.rest));
      if t.Char? {
        GetHexnumSame(0, s.c, t.c, t.rest, t'.rest);
        var h, h' := GetHexnum(0, s.c, t.c, t.rest), GetHexnum(0, s.c, t.c, t'.rest);
        if h.HexNum? {
          SkipSpacesSame(h.c, h.rest, h'.rest);
          var u, u' := SkipSpaces(h.c, h.rest), SkipSpaces(h'.c, h'.rest);
          if u.Char? && u.c != LF {
            CheckLineSame(s.c, h.arg, h.chk, u.c, u.rest, u'.rest);
          }
        }
      }
    }
  }

}
