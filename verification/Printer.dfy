/** The host's side of the boot loader: it prints sections as loader commands. */
module Printer {
  import opened Words
  import opened Text
  import opened Memory
  import opened Base85
  import opened Tinymon

  // ---------------------------------------------------------------------------
  // What is printed. `rest` is what is printed afterwards.

  /** The digits of a number, without leading zeros. */
  function HexDigits(v: nat): (ds: Bytes)
    ensures ds != [] && forall i :: 0 <= i < |ds| ==> IsHex(ds[i]) && Lower(ds[i]) == ds[i]
  {
    if v < 16 then [HexDigit(v)] else HexDigits(v / 16) + [HexDigit(v % 16)]
  }

  function Checksum(cmd: Byte, val: Word): Byte {
    SumBytes(cmd, HexDigits(val))
  }

  function ChecksumBytes(chk: Byte, rest: Bytes): Bytes {
    [SPACE, HexDigit(chk / 16), HexDigit(chk % 16), CR, LF] + rest
  }

  function CommandBytes(cmd: Byte, val: Word, rest: Bytes): Bytes {
    [cmd] + (HexDigits(val) + ChecksumBytes(Checksum(cmd, val), rest))
  }

  /** The groups of a block, with a line end after every seventeenth. */
  function Body(gs: seq<Group>, b: nat, rest: Bytes): Bytes {
    if gs == [] then rest
    else if b > 16 then gs[0] + ([LF] + Body(gs[1..], 1, rest))
    else gs[0] + Body(gs[1..], b + 1, rest)
  }

  function EncodeAll(ws: seq<Word>): (gs: seq<Group>)
    ensures |gs| == |ws| && forall i :: 0 <= i < |ws| ==> gs[i] == EncodeWord(ws[i])
  {
    seq(|ws|, i requires 0 <= i < |ws| => EncodeWord(ws[i]))
  }

  function SumWords(ws: seq<Word>): Word {
    if ws == [] then 0 else Wrap(ws[0] + SumWords(ws[1..]))
  }

  /** The words of a block, and the word that makes their sum zero. */
  function BlockBytes(ws: seq<Word>, rest: Bytes): Bytes {
    Body(EncodeAll(ws), 1, EncodeWord(Neg(SumWords(ws))) + ([LF] + rest))
  }

  /** A section of the program, in words; it ends below the top of the address space. */
  datatype Section = Section(start: Word, size: Word)

  predicate Printable(s: Section) {
    s.start % 4 == 0 && s.size % 4 == 0 && s.start + s.size < 0x1_0000_0000
  }

  function WordAddress(s: Section, i: nat): (a: Word)
    requires Printable(s) && i < s.size / 4
    ensures a % 4 == 0
  {
    DivModUnique(s.start + 4 * i, 4, s.start / 4 + i, 0);
    s.start + 4 * i
  }

  function SectionWords(m: Mem, s: Section): (ws: seq<Word>)
    requires Printable(s)
    ensures |ws| == s.size / 4
  {
    seq(s.size / 4, i requires 0 <= i < s.size / 4 => FetchWord(m, WordAddress(s, i)))
  }

  function SectionBytes(m: Mem, s: Section, rest: Bytes): Bytes
    requires Printable(s)
  {
    CommandBytes(CMD_LOAD, s.start, CommandBytes(CMD_BLOCK, s.size / 4, BlockBytes(SectionWords(m, s), rest)))
  }

  ghost predicate AllPrintable(ss: seq<Section>) {
    forall i :: 0 <= i < |ss| ==> Printable(ss[i])
  }

  ghost function SectionsBytes(m: Mem, ss: seq<Section>, rest: Bytes): Bytes
    requires AllPrintable(ss)
  {
    if ss == [] then rest else SectionBytes(m, ss[0], SectionsBytes(m, ss[1..], rest))
  }

  ghost function DumpBytes(m: Mem, ss: seq<Section>, entry: Word): Bytes
    requires AllPrintable(ss)
  {
    CommandBytes(CMD_CLEAR, 0, SectionsBytes(m, ss, CommandBytes(CMD_EXECUTE, entry, [])))
  }
}
