/** Bytes, hexadecimal digits and byte checksums, which the loader and the debugger both use. */
module Text {
  import opened Words

  type Bytes = seq<Byte>

  /** The codes of ASCII characters. */
  function Ascii(s: string): (bs: Bytes)
    requires forall i :: 0 <= i < |s| ==> s[i] as int < 128
    ensures |bs| == |s| && forall i :: 0 <= i < |s| ==> bs[i] == s[i] as int
  {
    seq(|s|, i requires 0 <= i < |s| => s[i] as int)
  }

  predicate IsHex(c: Byte) {
    48 <= c <= 57 || 97 <= c <= 102
  }

  function HexValue(c: Byte): nat
    requires IsHex(c)
  {
    if c <= 57 then c - 48 else c - 87
  }

  function HexDigit(d: nat): (c: Byte)
    requires d < 16
    ensures IsHex(c) && HexValue(c) == d
  {
    if d < 10 then 48 + d else 87 + d
  }

  /** The sixteen digits are in order, and nothing else is one. */
  lemma DigitsAre(c: Byte, d: nat)
    requires d < 16
    ensures HexDigit(d) == "0123456789abcdef"[d] as int
    ensures IsHex(c) && HexValue(c) == d <==> c == "0123456789abcdef"[d] as int
  {
  }

  lemma OnlyDigits(c: Byte)
    ensures IsHex(c) ==> HexValue(c) < 16
  {
  }

  /** The sum of the bytes, as an unsigned char. */
  function SumBytes(chk: Byte, bs: Bytes): Byte
    decreases |bs|
  {
    if bs == [] then chk else SumBytes((chk + bs[0]) % 256, bs[1..])
  }

  lemma {:induction false} SumSnoc(chk: Byte, bs: Bytes, b: Byte)
    ensures SumBytes(chk, bs + [b]) == (SumBytes(chk, bs) + b) % 256
    decreases |bs|
  {
    if bs == [] {
      assert bs + [b] == [b];
      assert [b][1..] == [];
    } else {
      assert (bs + [b])[1..] == bs[1..] + [b];
      SumSnoc((chk + bs[0]) % 256, bs[1..], b);
    }
  }

  lemma {:induction false} SumsDiffer(x: Byte, y: Byte, bs: Bytes)
    requires x != y
    ensures SumBytes(x, bs) != SumBytes(y, bs)
    decreases |bs|
  {
    if bs != [] {
      SumsDiffer((x + bs[0]) % 256, (y + bs[0]) % 256, bs[1..]);
    }
  }

  /** One other byte changes the sum. */
  lemma {:induction false} SumNotices(chk: Byte, p: Bytes, k: nat, b: Byte)
    requires k < |p| && b != p[k]
    ensures SumBytes(chk, p[k := b]) != SumBytes(chk, p)
    decreases |p|
  {
    var q := p[k := b];
    if k == 0 {
      assert q[1..] == p[1..];
      SumsDiffer((chk + b) % 256, (chk + p[0]) % 256, p[1..]);
    } else {
      assert q[1..] == p[1..][k - 1 := b] && q[0] == p[0];
      SumNotices((chk + p[0]) % 256, p[1..], k - 1, b);
    }
  }
}
