/** The grammar of command lines, and lines with one wrong character: the loader notices, and ignores
    them. */
module CommandLines {
  import opened Words
  import opened Text
  import opened Base85
  import opened Tinymon
  import opened Printer
  import opened LoaderTheorems

  predicate SmallHex(ds: Bytes) {
    ds != [] && forall i :: 0 <= i < |ds| ==> IsHex(ds[i]) && Lower(ds[i]) == ds[i]
  }

  // ---------------------------------------------------------------------------
  // Lines in general

  function Spaces(n: nat): (bs: Bytes)
    ensures |bs| == n && forall i :: 0 <= i < n ==> bs[i] == 32
  {
    seq(n, _ => 32)
  }

  /** Characters that the loader skips on its way to a command letter. */
  predicate Cruft(bs: Bytes) {
    forall i :: 0 <= i < |bs| ==> !IsCommand(Lower(bs[i]))
  }

  /** Any number of spaces before a character. */
  lemma SpacesRead(n: nat, c: Byte, rest: Bytes)
    requires Lower(c) != SPACE
    ensures SpacesAfter(Next(Spaces(n) + ([c] + rest))) == Char(Lower(c), rest)
  {
    var inp := Spaces(n) + ([c] + rest);
    if n == 0 {
      assert inp == [c] + rest;
      assert inp[1..] == rest;
    } else {
      assert Spaces(n)[1..] == Spaces(n - 1);
      assert inp[0] == SPACE && inp[1..] == Spaces(n - 1) + ([c] + rest);
      SkipsAnySpaces(n - 1, c, rest);
    }
  }

  lemma {:induction false} SkipsAnySpaces(n: nat, c: Byte, rest: Bytes)
    requires Lower(c) != SPACE
    ensures SkipSpaces(SPACE, Spaces(n) + ([c] + rest)) == Char(Lower(c), rest)
    decreases n
  {
    var inp := Spaces(n) + ([c] + rest);
    if n == 0 {
      assert inp == [c] + rest;
      assert inp[1..] == rest;
    } else {
      assert Spaces(n)[1..] == Spaces(n - 1);
      assert inp[0] == SPACE && inp[1..] == Spaces(n - 1) + ([c] + rest);
      SkipsAnySpaces(n - 1, c, rest);
    }
  }

  lemma {:induction false} SkipsCruft(c: Byte, pre: Bytes, cmd: Byte, rest: Bytes)
    requires Cruft(pre) && IsCommand(cmd) && !IsCommand(c)
    ensures SkipCruft(c, pre + ([cmd] + rest)) == Char(cmd, rest)
    decreases |pre|
  {
    var inp := pre + ([cmd] + rest);
    if pre == [] {
      assert inp == [cmd] + rest;
      assert inp[1..] == rest;
    } else {
      assert inp[0] == pre[0] && inp[1..] == pre[1..] + ([cmd] + rest);
      SkipsCruft(Lower(pre[0]), pre[1..], cmd, rest);
    }
  }

  lemma {:induction false} LetterFound(pre: Bytes, cmd: Byte, rest: Bytes)
    requires Cruft(pre) && IsCommand(cmd)
    ensures GetCommand(pre + ([cmd] + rest)) == Char(cmd, rest)
    decreases |pre|
  {
    var inp := pre + ([cmd] + rest);
    if pre == [] {
      SkipLinesReads([], cmd, rest);
    } else {
      assert inp[0] == pre[0] && inp[1..] == pre[1..] + ([cmd] + rest);
      if Lower(pre[0]) == SPACE || Lower(pre[0]) == LF {
        LetterFound(pre[1..], cmd, rest);
        assert SkipLines(inp) == SkipLines(inp[1..]);
      } else {
        assert SkipLines(inp) == Char(Lower(pre[0]), inp[1..]);
        SkipsCruft(Lower(pre[0]), pre[1..], cmd, rest);
      }
    }
  }

  lemma TwoDigitValue(h1: Byte, h2: Byte)
    requires IsHex(h1) && IsHex(h2)
    ensures Horner(0, [h1, h2]) == 16 * HexValue(h1) + HexValue(h2) < 256
  {
    OnlyDigits(h1);
    OnlyDigits(h2);
    var ds := [h1, h2];
    assert ds[1..] == [h2] && ds[1..][1..] == [];
    var v1, v2 := HexValue(h1), HexValue(h2);
    hide HexValue, IsHex, Wrap;
    WrapOnce(v1);
    WrapOnce(16 * v1 + v2);
    assert Horner(0, ds) == Horner(Wrap(0 * 16 + v1), ds[1..]);
    assert Horner(v1, ds[1..]) == Horner(Wrap(v1 * 16 + v2), ds[1..][1..]);
  }

  /** Line ends, and whatever else cannot go on a number or a run of spaces. */
  predicate Stops(e: Byte) {
    !IsHex(Lower(e)) && Lower(e) != SPACE
  }

  /** What follows a number: spaces, and a character that stops them. */
  function Ending(n: nat, e: Byte, rest: Bytes): Bytes {
    Spaces(n) + ([e] + rest)
  }

  /** A number is read to its end. */
  lemma NumberReads(chk: Byte, ds: Bytes, n: nat, e: Byte, rest: Bytes)
    requires SmallHex(ds) && (n > 0 || !IsHex(Lower(e)))
    ensures GetHexnum(0, chk, ds[0], ds[1..] + Ending(n, e, rest)) ==
            if n == 0 then HexNum(Horner(0, ds), SumBytes(chk, ds), Lower(e), rest)
            else HexNum(Horner(0, ds), SumBytes(chk, ds), SPACE, Ending(n - 1, e, rest))
  {
    hide GetHexnum, Horner, SumBytes, IsHex;
    if n == 0 {
      assert Ending(0, e, rest) == [e] + rest;
      HexnumReads(0, chk, ds, e, rest);
    } else {
      NotHex();
      assert Spaces(n)[1..] == Spaces(n - 1);
      assert Ending(n, e, rest) == [SPACE] + Ending(n - 1, e, rest);
      HexnumReads(0, chk, ds, SPACE, Ending(n - 1, e, rest));
    }
  }

  lemma NotHex()
    ensures !IsHex(Lower(CR)) && !IsHex(Lower(SPACE)) && !IsHex(LF) && Lower(SPACE) == SPACE
  {
  }

  /** Past the spaces after a number. */
  lemma AfterNumber(n: nat, e: Byte, rest: Bytes)
    requires Lower(e) != SPACE
    ensures n > 0 ==> SkipSpaces(SPACE, Ending(n - 1, e, rest)) == Char(Lower(e), rest)
    ensures SkipSpaces(Lower(e), rest) == Char(Lower(e), rest)
  {
    if n > 0 {
      SkipsAnySpaces(n - 1, e, rest);
    }
  }

  /** The checksum and what follows it. */
  lemma ChecksumCompared(cmd: Byte, arg: Word, chk: Byte, hs: Bytes, n: nat, e: Byte, rest: Bytes)
    requires SmallHex(hs) && Stops(e)
    ensures CheckLine(cmd, arg, chk, hs[0], hs[1..] + Ending(n, e, rest)) ==
            if chk == Horner(0, hs) % 256 then Command(cmd, arg, Lower(e) == LF, Lower(e), rest)
            else if n == 0 then Command(cmd, arg, false, Lower(e), rest)
            else Command(cmd, arg, false, SPACE, Ending(n - 1, e, rest))
  {
    hide GetHexnum, Horner, SumBytes, IsHex, SkipSpaces, Ending;
    NumberReads(chk, hs, n, e, rest);
    AfterNumber(n, e, rest);
  }

  /** A line of cruft, a letter, an argument and a checksum, with spaces between them. */
  function FullLine(pre: Bytes, cmd: Byte, n1: nat, ds: Bytes, n2: nat, hs: Bytes, n3: nat, e: Byte, rest: Bytes)
    : Bytes
  {
    pre + ([cmd] + (Spaces(n1) + (ds + (Spaces(n2) + (hs + Ending(n3, e, rest))))))
  }

  /** Any such line is read; it is good exactly when its checksum is the sum of its letter and digits
      modulo 256 and nothing but a line end follows. */
  lemma LineReads(pre: Bytes, cmd: Byte, n1: nat, ds: Bytes, n2: nat, hs: Bytes, n3: nat, e: Byte, rest: Bytes)
    requires Cruft(pre) && IsCommand(cmd) && SmallHex(ds) && SmallHex(hs) && n2 > 0 && Stops(e)
    ensures GetLine(FullLine(pre, cmd, n1, ds, n2, hs, n3, e, rest)) ==
            if SumBytes(cmd, ds) == Horner(0, hs) % 256 then Command(cmd, Horner(0, ds), Lower(e) == LF, Lower(e), rest)
            else if n3 == 0 then Command(cmd, Horner(0, ds), false, Lower(e), rest)
            else Command(cmd, Horner(0, ds), false, SPACE, Ending(n3 - 1, e, rest))
  {
    hide GetCommand, SpacesAfter, SkipSpaces, Next, GetHexnum, CheckLine, SumBytes, Horner, IsHex, IsCommand, Lower;
    hide Ending, Spaces;
    var check := hs + Ending(n3, e, rest);
    var after := ds[1..] + (Spaces(n2) + check);
    var check' := hs[1..] + Ending(n3, e, rest);
    LetterFound(pre, cmd, Spaces(n1) + (ds + (Spaces(n2) + check)));
    assert ds + (Spaces(n2) + check) == [ds[0]] + after;
    NotSpace(ds[0]);
    SpacesRead(n1, ds[0], after);
    assert check == [hs[0]] + check';
    NotSpace(hs[0]);
    SpacedNumber(cmd, ds, n2, hs[0], check');
    AfterNumber(n2, hs[0], check');
    ChecksumCompared(cmd, Horner(0, ds), SumBytes(cmd, ds), hs, n3, e, rest);
  }

  lemma SpacedNumber(chk: Byte, ds: Bytes, n: nat, h: Byte, rest: Bytes)
    requires SmallHex(ds) && n > 0
    ensures GetHexnum(0, chk, ds[0], ds[1..] + (Spaces(n) + ([h] + rest))) ==
            HexNum(Horner(0, ds), SumBytes(chk, ds), SPACE, Ending(n - 1, h, rest))
  {
    hide GetHexnum, Horner, SumBytes, IsHex;
    NumberReads(chk, ds, n, h, rest);
  }

  lemma NotSpace(d: Byte)
    requires IsHex(d) && Lower(d) == d
    ensures Lower(d) != SPACE && d != LF
  {
  }

  /** An argument that ends the line needs no checksum. */
  lemma ShortLineReads(pre: Bytes, cmd: Byte, n1: nat, ds: Bytes, n2: nat, e: Byte, rest: Bytes)
    requires Cruft(pre) && IsCommand(cmd) && SmallHex(ds) && Lower(e) == LF
    ensures GetLine(pre + ([cmd] + (Spaces(n1) + (ds + Ending(n2, e, rest))))) ==
            Command(cmd, Horner(0, ds), true, LF, rest)
  {
    hide GetCommand, SpacesAfter, SkipSpaces, Next, GetHexnum, CheckLine, SumBytes, Horner, IsHex, IsCommand, Lower;
    hide Ending, Spaces;
    var after := ds[1..] + Ending(n2, e, rest);
    LetterFound(pre, cmd, Spaces(n1) + (ds + Ending(n2, e, rest)));
    assert ds + Ending(n2, e, rest) == [ds[0]] + after;
    NotSpace(ds[0]);
    NotHex();
    SpacesRead(n1, ds[0], after);
    NumberReads(cmd, ds, n2, e, rest);
    AfterNumber(n2, e, rest);
  }

  /** The turn of a line that ends properly: carried out if its checksum is right, and otherwise the
      loader is in error at the start of the next line. */
  lemma LineTurn(m: Mon, pre: Bytes, cmd: Byte, n1: nat, ds: Bytes, n2: nat, hs: Bytes, n3: nat, e: Byte, rest: Bytes)
    requires Cruft(pre) && IsCommand(cmd) && SmallHex(ds) && SmallHex(hs) && n2 > 0 && (e == 10 || e == 13)
    requires m.input == FullLine(pre, cmd, n1, ds, n2, hs, n3, e, rest)
    ensures CommandTurn(m) ==
            if SumBytes(cmd, ds) == Horner(0, hs) % 256 then RunCommand(m.(input := rest), cmd, Horner(0, ds))
            else Ignored(m.(input := rest, inError := true))
  {
    hide GetLine, SumBytes, Horner, RunCommand, FullLine;
    LineReads(pre, cmd, n1, ds, n2, hs, n3, e, rest);
    if n3 > 0 {
      SkipsToEnd(n3 - 1, SPACE, e, rest);
    }
    assert SkipToLineEnd(LF, rest) == Char(LF, rest);
  }

  lemma {:induction false} SkipsToEnd(n: nat, c: Byte, e: Byte, rest: Bytes)
    requires Lower(e) == LF && c != LF
    ensures SkipToLineEnd(c, Ending(n, e, rest)) == Char(LF, rest)
    decreases n
  {
    var inp := Ending(n, e, rest);
    if n == 0 {
      assert inp == [e] + rest;
      assert inp[1..] == rest;
    } else {
      assert Spaces(n)[1..] == Spaces(n - 1);
      assert inp[0] == SPACE && inp[1..] == Ending(n - 1, e, rest);
      SkipsToEnd(n - 1, SPACE, e, rest);
    }
  }

  // ---------------------------------------------------------------------------
  // Printed lines with one wrong character

  /** The letter and the digits of a printed command. */
  function Spoken(cmd: Byte, val: Word): Bytes {
    [cmd] + HexDigits(val)
  }

  lemma SumFromLetter(cmd: Byte, ds: Bytes)
    ensures SumBytes(0, [cmd] + ds) == SumBytes(cmd, ds)
  {
    assert ([cmd] + ds)[1..] == ds;
  }

  lemma PrintedLayout(pre: Bytes, cmd: Byte, ds: Bytes, h1: Byte, h2: Byte, rest: Bytes)
    ensures pre + ([cmd] + (ds + ([SPACE, h1, h2, CR, LF] + rest))) ==
            FullLine(pre, cmd, 0, ds, 1, [h1, h2], 0, CR, [LF] + rest)
  {
    var check := [h1, h2] + Ending(0, CR, [LF] + rest);
    assert Spaces(1) == [SPACE] && Spaces(0) == [];
    assert check == [h1, h2, CR, LF] + rest;
    assert Spaces(1) + check == [SPACE, h1, h2, CR, LF] + rest;
    assert Spaces(0) + (ds + (Spaces(1) + check)) == ds + (Spaces(1) + check);
  }

  lemma BothHex(h1: Byte, h2: Byte)
    requires IsHex(h1) && IsHex(h2)
    ensures SmallHex([h1, h2]) && Horner(0, [h1, h2]) % 256 == 16 * HexValue(h1) + HexValue(h2)
  {
    hide Horner;
    TwoDigitValue(h1, h2);
  }

  lemma NoCruft(pre: Bytes)
    requires LineEnds(pre)
    ensures Cruft(pre)
  {
  }

  /** A printed line with any letter, digits and checksum. */
  lemma PrintedLineTurn(m: Mon, pre: Bytes, cmd: Byte, ds: Bytes, h1: Byte, h2: Byte, rest: Bytes)
    requires LineEnds(pre) && IsCommand(cmd) && SmallHex(ds) && IsHex(h1) && IsHex(h2)
    requires m.input == pre + ([cmd] + (ds + ([SPACE, h1, h2, CR, LF] + rest)))
    requires SumBytes(cmd, ds) != 16 * HexValue(h1) + HexValue(h2)
    ensures CommandTurn(m) == Ignored(m.(input := [LF] + rest, inError := true))
  {
    hide CommandTurn, SumBytes, Horner, IsHex, HexValue, SmallHex, RunCommand, FullLine, Cruft, LineEnds, IsCommand;
    BothHex(h1, h2);
    NoCruft(pre);
    PrintedLayout(pre, cmd, ds, h1, h2, rest);
    LineTurn(m, pre, cmd, 0, ds, 1, [h1, h2], 0, CR, [LF] + rest);
  }

  /** One wrong letter or digit before the checksum: another command letter, or another hexadecimal
      digit in the argument. */
  lemma WrongCharacterIgnored(m: Mon, pre: Bytes, cmd: Byte, val: Word, k: nat, b: Byte, rest: Bytes)
    requires LineEnds(pre) && IsCommand(cmd) && k < |Spoken(cmd, val)| && b != Spoken(cmd, val)[k]
    requires if k == 0 then IsCommand(b) else IsHex(b)
    requires m.input == pre + Spoken(cmd, val)[k := b] + ChecksumBytes(Checksum(cmd, val), rest)
    ensures CommandTurn(m) == Ignored(m.(input := [LF] + rest, inError := true))
  {
    hide GetLine, CommandTurn, SumBytes, HexDigits, Horner;
    var chk, bad := Checksum(cmd, val), Spoken(cmd, val)[k := b];
    var cmd', ds' := bad[0], bad[1..];
    SmallDigits(cmd, val, k, b);
    assert bad == [cmd'] + ds';
    SumFromLetter(cmd, HexDigits(val));
    SumFromLetter(cmd', ds');
    SumNotices(0, Spoken(cmd, val), k, b);
    SmallDigit(chk / 16);
    SmallDigit(chk % 16);
    Rearranged(pre, cmd', ds', ChecksumBytes(chk, rest));
    DigitsDetermine(HexDigit(chk / 16), HexDigit(chk % 16), chk);
    PrintedLineTurn(m, pre, cmd', ds', HexDigit(chk / 16), HexDigit(chk % 16), rest);
  }

  lemma Rearranged(pre: Bytes, cmd: Byte, ds: Bytes, tail: Bytes)
    ensures pre + ([cmd] + ds) + tail == pre + ([cmd] + (ds + tail))
  {
  }

  lemma SmallDigit(d: nat)
    requires d < 16
    ensures Lower(HexDigit(d)) == HexDigit(d)
  {
  }

  lemma SmallDigits(cmd: Byte, val: Word, k: nat, b: Byte)
    requires k < |Spoken(cmd, val)| && if k == 0 then IsCommand(b) else IsHex(b)
    requires IsCommand(cmd)
    ensures SmallHex(Spoken(cmd, val)[k := b][1..]) && IsCommand(Spoken(cmd, val)[k := b][0])
  {
    hide HexDigits;
    var ds := HexDigits(val);
    assert Spoken(cmd, val)[k := b][1..] == if k == 0 then ds else ds[k - 1 := b];
  }

  /** A wrong checksum digit. */
  lemma WrongChecksumIgnored(m: Mon, pre: Bytes, cmd: Byte, val: Word, h1: Byte, h2: Byte, rest: Bytes)
    requires LineEnds(pre) && IsCommand(cmd) && IsHex(h1) && IsHex(h2)
    requires var chk := Checksum(cmd, val); h1 != HexDigit(chk / 16) || h2 != HexDigit(chk % 16)
    requires m.input == pre + ([cmd] + (HexDigits(val) + ([SPACE, h1, h2, CR, LF] + rest)))
    ensures CommandTurn(m) == Ignored(m.(input := [LF] + rest, inError := true))
  {
    hide GetLine, CommandTurn, SumBytes, HexDigits, Horner;
    var chk := Checksum(cmd, val);
    ChecksumIs(cmd, val);
    DigitsDetermine(h1, h2, chk);
    LowerHex(h1);
    LowerHex(h2);
    PrintedLineTurn(m, pre, cmd, HexDigits(val), h1, h2, rest);
  }

  lemma LowerHex(h: Byte)
    requires IsHex(h)
    ensures Lower(h) == h
  {
  }

  lemma DigitsDetermine(h1: Byte, h2: Byte, chk: Byte)
    requires IsHex(h1) && IsHex(h2)
    ensures chk == 16 * HexValue(h1) + HexValue(h2) <==> h1 == HexDigit(chk / 16) && h2 == HexDigit(chk % 16)
  {
    OnlyDigits(h1);
    OnlyDigits(h2);
    var v := 16 * HexValue(h1) + HexValue(h2);
    DivModUnique(v, 16, HexValue(h1), HexValue(h2));
    ValueOfDigit(h1);
    ValueOfDigit(h2);
    hide HexValue, IsHex, HexDigit;
  }

  lemma ValueOfDigit(h: Byte)
    requires IsHex(h)
    ensures HexDigit(HexValue(h)) == h
  {
  }
}
