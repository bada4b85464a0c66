/** The host's printer as it runs: characters go out one by one. */
module PrinterUnit {
  import opened Words
  import opened Text
  import opened Memory
  import opened Base85
  import opened Tinymon
  import opened Printer

  class Console {
    var out: Bytes

    constructor ()
      ensures out == []
    {
      out := [];
    }

    method Putchar(b: Byte)
      modifies this
      ensures out == old(out) + [b]
    {
      out := out + [b];
    }

    method EncodeWordBase85(w: Word)
      modifies this
      ensures out == old(out) + EncodeWord(w)
    {
      var w0 := w;
      var e := w0 % 85;
      w0 := w0 / 85;
      var d := w0 % 85;
      w0 := w0 / 85;
      var c := w0 % 85;
      w0 := w0 / 85;
      var b := w0 % 85;
      w0 := w0 / 85;
      var a := w0 % 85;
      w0 := w0 / 85;
      EncodeIsExact(w);
      assert w0 == 0;
      Putchar(a + FIRST);
      Putchar(b + FIRST);
      Putchar(c + FIRST);
      Putchar(d + FIRST);
      Putchar(e + FIRST);
    }

    /** Prints a number without leading zeros, from its top digit down; the digits are added to the
        checksum. */
    method PutHex(val: Word, cmd: Byte) returns (chk: Byte)
      modifies this
      ensures out == old(out) + HexDigits(val)
      ensures chk == Checksum(cmd, val)
    {
      hide HexDigits, SumBytes, Shifts, HexDigit;
      var leadingZero := true;
      var rest: int := val;
      chk := cmd;
      ghost var top: nat := 0;
      var i := 0;
      NothingShifted(val);
      while i < 8
        invariant 0 <= i <= 8
        invariant 0 <= rest < 0x1_0000_0000 && Shifts(val, i, top, rest)
        invariant leadingZero <==> top == 0 && i < 8
        invariant !leadingZero ==> out == old(out) + HexDigits(top) && chk == SumBytes(cmd, HexDigits(top))
        invariant leadingZero ==> out == old(out) && chk == cmd
      {
        var digit := rest / 0x1000_0000;
        DigitShifted(val, i, top, rest);
        DigitAppended(top, digit, cmd);
        if digit != 0 || !leadingZero || i == 7 {
          leadingZero := false;
          chk := (chk + HexDigit(digit)) % 256;
          Putchar(HexDigit(digit));
        }
        rest := Wrap(rest * 16);
        top := top * 16 + digit;
        i := i + 1;
      }
      AllShifted(val, top, rest);
    }

    method TinymonCmd(cmd: Byte, val: Word)
      modifies this
      ensures out == old(out) + CommandBytes(cmd, val, [])
    {
      hide HexDigits, Checksum;
      Putchar(cmd);
      var chk := PutHex(val, cmd);
      Putchar(SPACE);
      Putchar(HexDigit(chk / 16));
      Putchar(HexDigit(chk % 16));
      Putchar(CR);
      Putchar(LF);
      assert ChecksumBytes(chk, []) == [SPACE, HexDigit(chk / 16), HexDigit(chk % 16), CR, LF];
    }

    /** Prints the words of a section, and returns their sum. */
    method PutSection(m: Mem, s: Section) returns (sum: Word)
      requires Printable(s)
      modifies this
      ensures out == old(out) + Body(EncodeAll(SectionWords(m, s)), 1, [])
      ensures sum == SumWords(SectionWords(m, s))
    {
      hide EncodeWord, FetchWord, SumWords, Body;
      ghost var ws := SectionWords(m, s);
      ghost var gs := EncodeAll(ws);
      DivModUnique(s.size, 4, s.size / 4, 0);
      var end := s.start + s.size;
      var p, b := s.start, 1;
      ghost var k := 0;
      sum := 0;
      WrapOnce(SumWords(ws));
      assert gs[0..] == gs && ws[0..] == ws;
      while p < end
        invariant p == s.start + 4 * k && k <= |ws| && 1 <= b <= 17
        invariant out + Body(gs[k..], b, []) == old(out) + Body(gs, 1, [])
        invariant Wrap(sum + SumWords(ws[k..])) == SumWords(ws)
        decreases end - p
      {
        assert p == WordAddress(s, k);
        var w := FetchWord(m, p);
        assert ws[k] == w && gs[k] == EncodeWord(w);
        ghost var printed := out;
        BodyStep(printed, gs, k, b);
        SumStep(ws, k, sum);
        sum := Wrap(sum + w);
        EncodeWordBase85(w);
        if b > 16 {
          Putchar(LF);
          b := 0;
        }
        p, b, k := p + 4, b + 1, k + 1;
      }
      AtEnd(gs, ws, b);
      WrapOnce(sum);
    }

    method DumpTinymon(m: Mem, ss: seq<Section>, entry: Word)
      requires AllPrintable(ss)
      modifies this
      ensures out == old(out) + DumpBytes(m, ss, entry)
    {
      hide CommandBytes, SectionBytes, SectionsBytes, EncodeWord, SumWords, AllPrintable;
      ghost var tail := CommandBytes(CMD_EXECUTE, entry, []);
      CommandAppends(CMD_CLEAR, 0, SectionsBytes(m, ss, tail));
      TinymonCmd(CMD_CLEAR, 0);
      var k := 0;
      assert ss[0..] == ss;
      while k < |ss|
        invariant 0 <= k <= |ss| && AllPrintable(ss[k..])
        invariant out + SectionsBytes(m, ss[k..], tail) == old(out) + DumpBytes(m, ss, entry)
      {
        ghost var printed := out;
        var s := ss[k];
        SectionsStep(printed, m, ss, k, tail);
        TinymonCmd(CMD_LOAD, s.start);
        TinymonCmd(CMD_BLOCK, s.size / 4);
        var sum := PutSection(m, s);
        EncodeWordBase85(Neg(sum));
        Putchar(LF);
        SectionPieces(m, s);
        assert out == printed + SectionBytes(m, s, []);
        k := k + 1;
      }
      NoSections(m, ss[k..], tail);
      TinymonCmd(CMD_EXECUTE, entry);
    }
  }

  // ---------------------------------------------------------------------------
  // Hexadecimal digits

  ghost function Pow16(n: nat): (p: nat)
    ensures p >= 1
  {
    if n == 0 then 1 else 16 * Pow16(n - 1)
  }

  /** After i digits have been shifted out of a word, top is their number and rest holds the others
      at the top of a word. */
  ghost predicate Shifts(val: Word, i: nat, top: nat, rest: Word) {
    i <= 8 && exists low: nat ::
      low < Pow16(8 - i) && val == top * Pow16(8 - i) + low && rest == low * Pow16(i)
  }

  lemma NothingShifted(val: Word)
    ensures Shifts(val, 0, 0, val)
  {
    Pow16Values();
    assert val < Pow16(8 - 0) && val == 0 * Pow16(8 - 0) + val && val == val * Pow16(0);
  }

  lemma AllShifted(val: Word, top: nat, rest: Word)
    requires Shifts(val, 8, top, rest)
    ensures top == val
  {
    Pow16Values();
  }

  lemma DigitShifted(val: Word, i: nat, top: nat, rest: Word)
    requires i < 8 && Shifts(val, i, top, rest)
    ensures var d := rest / 0x1000_0000;
            0 <= d < 16 && Shifts(val, i + 1, top * 16 + d, Wrap(rest * 16))
  {
    hide Wrap, Pow16;
    var low: nat :| low < Pow16(8 - i) && val == top * Pow16(8 - i) + low && rest == low * Pow16(i);
    TopDigit(val, top, low, i);
    var d := rest / 0x1000_0000;
    var low': nat := low - d * Pow16(7 - i);
    assert 8 - (i + 1) == 7 - i;
  }

  lemma Pow16Values()
    ensures Pow16(0) == 1 && Pow16(8) == 0x1_0000_0000
  {
    assert Pow16(4) == 0x1_0000;
  }

  lemma {:induction false} Pow16Product(i: nat)
    requires i <= 7
    ensures Pow16(7 - i) * Pow16(i) == 0x1000_0000
  {
    if i == 0 {
      assert Pow16(4) == 0x1_0000;
    } else {
      Pow16Product(i - 1);
      assert Pow16(8 - i) == 16 * Pow16(7 - i) && Pow16(i) == 16 * Pow16(i - 1);
    }
  }

  /** The top digit of what is left, and what is left after shifting it out. */
  lemma TopDigit(val: Word, top: nat, low: nat, i: nat)
    requires i < 8 && val == top * Pow16(8 - i) + low && low < Pow16(8 - i)
    ensures var d, p := low * Pow16(i) / 0x1000_0000, Pow16(7 - i);
            0 <= d < 16 && 0 <= low - d * p < p && val == (top * 16 + d) * p + (low - d * p) &&
            Wrap(low * Pow16(i) * 16) == (low - d * p) * Pow16(i + 1)
  {
    hide Wrap;
    var p, q := Pow16(7 - i), Pow16(i);
    assert Pow16(8 - i) == 16 * p && Pow16(i + 1) == 16 * q by {
      assert 8 - i == (7 - i) + 1;
    }
    Pow16Product(i);
    hide Pow16;
    var d, r := Quotient(low, p, 16);
    ShiftedQuotient(d, p, r, q);
    TopSplits(top, d, p);
  }

  lemma {:induction false} Quotient(x: nat, p: nat, n: nat) returns (d: nat, r: nat)
    requires x < n * p
    ensures d < n && r < p && x == d * p + r
    decreases n
  {
    if x < (n - 1) * p {
      d, r := Quotient(x, p, n - 1);
    } else {
      d, r := n - 1, x - (n - 1) * p;
    }
  }

  lemma ShiftedQuotient(d: nat, p: nat, r: nat, q: nat)
    requires d < 16 && r < p && q >= 1 && p * q == 0x1000_0000
    ensures (d * p + r) * q / 0x1000_0000 == d
    ensures Wrap((d * p + r) * q * 16) == r * (16 * q)
  {
    SplitProduct(d, p, r, q);
    RemainderTimes(r, p, q);
    var rq := r * q;
    DivModUnique((d * p + r) * q, 0x1000_0000, d, rq);
    DivModUnique((d * p + r) * q * 16, 0x1_0000_0000, d, rq * 16);
    SixteenTimes(r, q);
  }

  lemma SixteenTimes(r: int, q: int)
    ensures r * (16 * q) == r * q * 16
  {
  }

  lemma SplitProduct(d: int, p: int, r: int, q: int)
    ensures (d * p + r) * q == d * (p * q) + r * q
  {
    assert d * (p * q) == (d * p) * q;
  }

  lemma RemainderTimes(r: nat, p: nat, q: nat)
    requires r < p && q >= 1
    ensures 0 <= r * q < p * q
  {
    MulAtLeast(p - r, q);
    assert (p - r) * q == p * q - r * q;
  }

  lemma TopSplits(top: nat, d: nat, p: nat)
    ensures top * (16 * p) + d * p == (top * 16 + d) * p
  {
  }

  lemma DigitAppended(top: nat, d: nat, cmd: Byte)
    requires d < 16
    ensures top > 0 ==> HexDigits(top * 16 + d) == HexDigits(top) + [HexDigit(d)]
    ensures HexDigits(d) == [HexDigit(d)]
    ensures top > 0 ==> SumBytes(cmd, HexDigits(top * 16 + d)) == (SumBytes(cmd, HexDigits(top)) + HexDigit(d)) % 256
    ensures SumBytes(cmd, HexDigits(d)) == (cmd + HexDigit(d)) % 256
  {
    hide HexDigit;
    if top > 0 {
      DivModUnique(top * 16 + d, 16, top, d);
      SumSnoc(cmd, HexDigits(top), HexDigit(d));
    }
    SumSnoc(cmd, [], HexDigit(d));
    assert [] + [HexDigit(d)] == [HexDigit(d)];
  }

  // ---------------------------------------------------------------------------
  // Pieces in sequence

  lemma CommandAppends(cmd: Byte, val: Word, rest: Bytes)
    ensures CommandBytes(cmd, val, rest) == CommandBytes(cmd, val, []) + rest
  {
    hide HexDigits, Checksum, HexDigit;
    var chk := Checksum(cmd, val);
    assert ChecksumBytes(chk, rest) == ChecksumBytes(chk, []) + rest;
  }

  lemma {:induction false} BodyAppends(gs: seq<Group>, b: nat, rest: Bytes)
    ensures Body(gs, b, rest) == Body(gs, b, []) + rest
    decreases |gs|
  {
    if gs == [] {
      assert [] + rest == rest;
    } else {
      var b' := if b > 16 then 1 else b + 1;
      BodyAppends(gs[1..], b', rest);
      var body := Body(gs[1..], b', []);
      assert gs[0] + ([LF] + (body + rest)) == gs[0] + ([LF] + body) + rest;
      assert gs[0] + (body + rest) == gs[0] + body + rest;
    }
  }

  lemma BodyStep(printed: Bytes, gs: seq<Group>, k: nat, b: nat)
    requires k < |gs| && b <= 17
    ensures printed + Body(gs[k..], b, []) ==
            if b > 16 then printed + gs[k] + [LF] + Body(gs[k + 1..], 1, [])
            else printed + gs[k] + Body(gs[k + 1..], b + 1, [])
  {
    assert gs[k..][1..] == gs[k + 1..] && gs[k..][0] == gs[k];
    var body := Body(gs[k + 1..], if b > 16 then 1 else b + 1, []);
    assert printed + (gs[k] + ([LF] + body)) == printed + gs[k] + [LF] + body;
    assert printed + (gs[k] + body) == printed + gs[k] + body;
  }

  lemma SumStep(ws: seq<Word>, k: nat, sum: Word)
    requires k < |ws|
    ensures Wrap(Wrap(sum + ws[k]) + SumWords(ws[k + 1..])) == Wrap(sum + SumWords(ws[k..]))
  {
    assert ws[k..][1..] == ws[k + 1..] && ws[k..][0] == ws[k];
    AddAssociates(sum, ws[k], SumWords(ws[k + 1..]));
  }

  lemma AtEnd(gs: seq<Group>, ws: seq<Word>, b: nat)
    ensures gs[|gs|..] == [] && ws[|ws|..] == []
    ensures Body([], b, []) == [] && SumWords([]) == 0
  {
  }

  lemma SectionPieces(m: Mem, s: Section)
    requires Printable(s)
    ensures var ws := SectionWords(m, s);
            SectionBytes(m, s, []) ==
            CommandBytes(CMD_LOAD, s.start, []) + CommandBytes(CMD_BLOCK, s.size / 4, []) +
            Body(EncodeAll(ws), 1, []) + EncodeWord(Neg(SumWords(ws))) + [LF]
  {
    hide CommandBytes, EncodeAll, EncodeWord, SumWords, SectionWords, Body;
    var ws := SectionWords(m, s);
    var last := EncodeWord(Neg(SumWords(ws)));
    BodyAppends(EncodeAll(ws), 1, last + ([LF] + []));
    CommandAppends(CMD_BLOCK, s.size / 4, BlockBytes(ws, []));
    CommandAppends(CMD_LOAD, s.start, CommandBytes(CMD_BLOCK, s.size / 4, BlockBytes(ws, [])));
    assert [LF] + [] == [LF];
  }

  lemma SectionAppends(m: Mem, s: Section, rest: Bytes)
    requires Printable(s)
    ensures SectionBytes(m, s, rest) == SectionBytes(m, s, []) + rest
  {
    hide CommandBytes, EncodeAll, EncodeWord, SumWords, SectionWords, Body;
    var ws := SectionWords(m, s);
    var last := EncodeWord(Neg(SumWords(ws)));
    BodyAppends(EncodeAll(ws), 1, last + ([LF] + rest));
    CommandAppends(CMD_BLOCK, s.size / 4, BlockBytes(ws, rest));
    CommandAppends(CMD_LOAD, s.start, CommandBytes(CMD_BLOCK, s.size / 4, BlockBytes(ws, rest)));
    SectionPieces(m, s);
  }

  lemma SectionsStep(printed: Bytes, m: Mem, ss: seq<Section>, k: nat, tail: Bytes)
    requires k < |ss| && AllPrintable(ss[k..])
    ensures Printable(ss[k]) && AllPrintable(ss[k + 1..])
    ensures printed + SectionsBytes(m, ss[k..], tail) ==
            printed + SectionBytes(m, ss[k], []) + SectionsBytes(m, ss[k + 1..], tail)
  {
    hide SectionBytes;
    assert ss[k..][0] == ss[k] && ss[k..][1..] == ss[k + 1..];
    SectionAppends(m, ss[k], SectionsBytes(m, ss[k + 1..], tail));
  }

  lemma NoSections(m: Mem, ss: seq<Section>, tail: Bytes)
    requires ss == []
    ensures AllPrintable(ss) && SectionsBytes(m, ss, tail) == tail
  {
  }
}
