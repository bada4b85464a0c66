/** The loader's text encodings: words as five base-85 digits, and as hexadecimal numbers. */
module Base85 {
  import opened Words
  import opened Text

  const FIRST: Byte := 40    // '('
  const LAST: Byte := 124    // '|'
  const SPACE: Byte := 32
  const LF: Byte := 10
  const CR: Byte := 13

  // ---------------------------------------------------------------------------
  // Encoding

  /** Five digits, most significant first. */
  type Group = g: Bytes | |g| == 5 && forall i :: 0 <= i < 5 ==> FIRST <= g[i] <= LAST
    witness [40, 40, 40, 40, 40]

  function EncodeWord(w: Word): (g: Group) {
    var w1 := w / 85;
    var w2 := w1 / 85;
    var w3 := w2 / 85;
    var w4 := w3 / 85;
    [FIRST + w4 % 85, FIRST + w3 % 85, FIRST + w2 % 85, FIRST + w1 % 85, FIRST + w % 85]
  }

  /** The number the five digits stand for. */
  function GroupNumber(g: Group): nat {
    85 * HighNumber(g) + (g[4] - FIRST)
  }

  /** The number the first four digits stand for. */
  function HighNumber(g: Group): nat {
    ((((g[0] - FIRST) * 85 + (g[1] - FIRST)) * 85) + (g[2] - FIRST)) * 85 + (g[3] - FIRST)
  }

  /** Five digits are enough: the encoder ends with quotient 0, and its digits stand for the word. */
  lemma EncodeIsExact(w: Word)
    ensures w / 85 / 85 / 85 / 85 / 85 == 0
    ensures GroupNumber(EncodeWord(w)) == w
  {
    var w1 := w / 85;
    var w2 := w1 / 85;
    var w3 := w2 / 85;
    var w4 := w3 / 85;
    assert w4 < 85;
  }

  // ---------------------------------------------------------------------------
  // Decoding, as the firmware does it

  /** A read that consumes input: it waits for ever when the input ends. */
  datatype Digits = Starved | Read(v: Word, failed: bool, rest: Bytes)

  predicate Blank(bs: Bytes) {
    forall i :: 0 <= i < |bs| ==> bs[i] <= SPACE
  }

  /** Reads one digit, skipping everything up to a blank, and adds it to v. Once failed, it reads
      nothing and stays failed. */
  function D85(v: Word, failed: bool, inp: Bytes): Digits
    decreases inp
  {
    if failed then Read(0, true, inp)
    else if inp == [] then Starved
    else if inp[0] <= SPACE then D85(v, failed, inp[1..])
    else if inp[0] < FIRST || LAST < inp[0] then Read(0, true, inp[1..])
    else
      var nv := Wrap(v * 85 + inp[0] - FIRST);
      if nv < v then Read(0, true, inp[1..]) else Read(nv, false, inp[1..])
  }

  function Then85(d: Digits): Digits {
    match d
    case Starved => Starved
    case Read(v, failed, rest) => D85(v, failed, rest)
  }

  function GetWord(failed: bool, inp: Bytes): Digits {
    Then85(Then85(Then85(Then85(D85(0, failed, inp)))))
  }

  lemma {:induction false} D85SkipsBlanks(v: Word, pad: Bytes, d: Byte, rest: Bytes)
    requires Blank(pad) && FIRST <= d <= LAST
    ensures D85(v, false, pad + [d] + rest) ==
            var nv := Wrap(v * 85 + d - FIRST); if nv < v then Read(0, true, rest) else Read(nv, false, rest)
    decreases |pad|
  {
    var inp := pad + [d] + rest;
    if pad == [] {
      assert inp == [d] + rest;
      assert inp[1..] == rest;
    } else {
      assert inp[0] == pad[0];
      assert inp[1..] == pad[1..] + [d] + rest;
      D85SkipsBlanks(v, pad[1..], d, rest);
    }
  }

  /** The overflow check of the last digit: a sum past 2^32 that wraps below the first four digits'
      number. It lets a wrap through when 84 times that number already exceeds 2^32. */
  predicate Flagged(g: Group) {
    GroupNumber(g) >= 0x1_0000_0000 && 84 * HighNumber(g) + (g[4] - FIRST) < 0x1_0000_0000
  }

  /** Five digits with any blanks before each, and what follows them. */
  function Spread(g: Group, pads: seq<Bytes>, rest: Bytes): Bytes
    requires |pads| == 5
  {
    pads[0] + [g[0]] + (pads[1] + [g[1]] + (pads[2] + [g[2]] + (pads[3] + [g[3]] + (pads[4] + [g[4]] + rest))))
  }

  lemma HighReads(g: Group, pads: seq<Bytes>, r4: Bytes)
    requires |pads| == 5 && forall i :: 0 <= i < 5 ==> Blank(pads[i])
    ensures Then85(Then85(Then85(D85(0, false,
              pads[0] + [g[0]] + (pads[1] + [g[1]] + (pads[2] + [g[2]] + (pads[3] + [g[3]] + r4))))))) ==
            Read(HighNumber(g), false, r4)
  {
    hide D85, Blank;
    var r3 := pads[3] + [g[3]] + r4;
    var r2 := pads[2] + [g[2]] + r3;
    var v1 := g[0] - FIRST;
    var v2 := v1 * 85 + (g[1] - FIRST);
    D85Small(0, pads[0], g[0], pads[1] + [g[1]] + r2);
    D85Small(v1, pads[1], g[1], r2);
    D85Small(v2, pads[2], g[2], r3);
    D85Small(v2 * 85 + (g[2] - FIRST), pads[3], g[3], r4);
  }

  /** Reading any five digits: flagged exactly by the check, and otherwise their number mod 2^32. */
  lemma GetWordReads(g: Group, pads: seq<Bytes>, rest: Bytes)
    requires |pads| == 5 && forall i :: 0 <= i < 5 ==> Blank(pads[i])
    ensures GetWord(false, Spread(g, pads, rest)) ==
            if Flagged(g) then Read(0, true, rest) else Read(Wrap(GroupNumber(g)), false, rest)
  {
    hide D85, Flagged, GroupNumber, HighNumber, Wrap, Blank;
    HighReads(g, pads, pads[4] + [g[4]] + rest);
    D85Last(g, pads[4], rest);
  }

  /** The first four digits cannot overflow. */
  lemma D85Small(v: Word, pad: Bytes, d: Byte, rest: Bytes)
    requires Blank(pad) && FIRST <= d <= LAST && v < 614125
    ensures D85(v, false, pad + [d] + rest) == Read(v * 85 + (d - FIRST), false, rest)
  {
    D85SkipsBlanks(v, pad, d, rest);
    WrapOnce(v * 85 + d - FIRST);
    hide D85, Wrap;
  }

  lemma D85Last(g: Group, pad: Bytes, rest: Bytes)
    requires Blank(pad)
    ensures HighNumber(g) < 52200625
    ensures D85(HighNumber(g), false, pad + [g[4]] + rest) ==
            if Flagged(g) then Read(0, true, rest) else Read(Wrap(GroupNumber(g)), false, rest)
  {
    D85SkipsBlanks(HighNumber(g), pad, g[4], rest);
    WrapOnce(GroupNumber(g));
    hide D85, Wrap;
  }

  /** A word survives encoding and decoding, whatever blanks are between its digits. */
  lemma WordRoundTrip(w: Word, pads: seq<Bytes>, rest: Bytes)
    requires |pads| == 5 && forall i :: 0 <= i < 5 ==> Blank(pads[i])
    ensures GetWord(false, Spread(EncodeWord(w), pads, rest)) == Read(w, false, rest)
  {
    EncodeIsExact(w);
    GetWordReads(EncodeWord(w), pads, rest);
    WrapOnce(w);
    hide GetWord, Spread, EncodeWord, GroupNumber;
  }

  /** A group as the printer lays it out: blanks, then the five digits together. */
  lemma GroupReads(pad: Bytes, g: Group, rest: Bytes)
    requires Blank(pad)
    ensures GetWord(false, pad + (g + rest)) ==
            if Flagged(g) then Read(0, true, rest) else Read(Wrap(GroupNumber(g)), false, rest)
  {
    hide GetWord, Flagged, GroupNumber;
    GetWordReads(g, [pad, [], [], [], []], rest);
    assert [] + [g[4]] + rest == g[4..] + rest;
    assert [] + [g[3]] + (g[4..] + rest) == g[3..] + rest;
    assert [] + [g[2]] + (g[3..] + rest) == g[2..] + rest;
    assert [] + [g[1]] + (g[2..] + rest) == g[1..] + rest;
    assert pad + [g[0]] + (g[1..] + rest) == pad + (g + rest);
  }

  // ---------------------------------------------------------------------------
  // Other characters

  lemma {:induction false} D85Rejects(v: Word, pad: Bytes, c: Byte, rest: Bytes)
    requires Blank(pad) && (32 < c < 40 || 124 < c)
    ensures D85(v, false, pad + [c] + rest) == Read(0, true, rest)
    decreases |pad|
  {
    var inp := pad + [c] + rest;
    if pad == [] {
      assert inp == [c] + rest;
      assert inp[1..] == rest;
    } else {
      assert inp[0] == pad[0];
      assert inp[1..] == pad[1..] + [c] + rest;
      D85Rejects(v, pad[1..], c, rest);
    }
  }

  /** The first j digits, and then a character that is none: it is flagged, and the rest is unread. */
  lemma OtherCharacterFlagged(g: Group, j: nat, pads: seq<Bytes>, c: Byte, rest: Bytes)
    requires j < 5 && |pads| == 5 && forall i :: 0 <= i < 5 ==> Blank(pads[i])
    requires 32 < c < 40 || 124 < c
    ensures GetWord(false, DigitsFrom(g, 0, j, pads, pads[j] + [c] + rest)) == Read(0, true, rest)
  {
    hide D85, Blank;
    var v1 := g[0] - FIRST;
    var v2 := v1 * 85 + (g[1] - FIRST);
    var v3 := v2 * 85 + (g[2] - FIRST);
    var bad := pads[j] + [c] + rest;
    D85Rejects(if j == 0 then 0 else if j == 1 then v1 else if j == 2 then v2 else if j == 3 then v3
               else HighNumber(g), pads[j], c, rest);
    FailedIsSilent(rest);
    if j > 0 { D85Small(0, pads[0], g[0], DigitsFrom(g, 1, j, pads, bad)); }
    if j > 1 { D85Small(v1, pads[1], g[1], DigitsFrom(g, 2, j, pads, bad)); }
    if j > 2 { D85Small(v2, pads[2], g[2], DigitsFrom(g, 3, j, pads, bad)); }
    if j > 3 {
      D85Small(v3, pads[3], g[3], bad);
      assert DigitsFrom(g, 3, j, pads, bad) == pads[3] + [g[3]] + bad;
    }
  }

  /** Digits i up to j, with blanks before each, and what follows them. */
  function DigitsFrom(g: Group, i: nat, j: nat, pads: seq<Bytes>, rest: Bytes): Bytes
    requires i <= j <= 5 && |pads| == 5
    decreases j - i
  {
    if i == j then rest else pads[i] + [g[i]] + DigitsFrom(g, i + 1, j, pads, rest)
  }

  lemma FailedIsSilent(inp: Bytes)
    ensures Then85(Read(0, true, inp)) == Read(0, true, inp)
  {
  }

  // ---------------------------------------------------------------------------
  // One wrong digit

  /** The weight of digit j. */
  function Weight(j: nat): nat
    requires j < 5
  {
    if j == 0 then 52200625 else if j == 1 then 614125 else if j == 2 then 7225 else if j == 3 then 85 else 1
  }

  function WithDigit(g: Group, j: nat, d: Byte): Group
    requires j < 5 && FIRST <= d <= LAST
  {
    g[j := d]
  }

  lemma DigitChangesNumber(g: Group, j: nat, d: Byte)
    requires j < 5 && FIRST <= d <= LAST
    ensures GroupNumber(WithDigit(g, j, d)) == GroupNumber(g) + (d - g[j]) * Weight(j)
  {
    if j == 0 {
    } else if j == 1 {
    } else if j == 2 {
    } else if j == 3 {
    } else {
    }
  }

  /** No digit difference times its weight is a multiple of 2^32. */
  lemma WeightNotZero(j: nat, d: int)
    requires j < 5 && -84 <= d <= 84 && d != 0
    ensures d * Weight(j) % 0x1_0000_0000 != 0
  {
    var x := if d < 0 then -d * Weight(j) else d * Weight(j);
    assert 0 < x < 2 * 0x1_0000_0000 && x != 0x1_0000_0000;
    WrapOnce(x);
    if d < 0 {
      NegMod(x);
    }
  }

  lemma NegMod(x: int)
    requires x % 0x1_0000_0000 != 0
    ensures -x % 0x1_0000_0000 != 0
  {
    var q := (-x) / 0x1_0000_0000;
    if (-x) % 0x1_0000_0000 == 0 {
      assert -x == q * 0x1_0000_0000;
      DivModUnique(x, 0x1_0000_0000, -q, 0);
    }
  }
}
