/** The debugger's link as the stub runs it: one serial line, and buffers filled in place. A read
    that finds no input would wait for ever; here the method reports it. */
module GdbLink {
  import opened Words
  import opened Text
  import opened GdbPackets

  /** The characters of a buffer up to its NUL. */
  function CString(s: Bytes): (t: Bytes)
    ensures |t| <= |s|
    decreases |s|
  {
    if s == [] || s[0] == 0 then [] else [s[0]] + CString(s[1..])
  }

  class Link {
    var input: Bytes
    var output: Bytes

    constructor (serial: Bytes)
      ensures input == serial && output == []
    {
      input, output := serial, [];
    }

    method PutDebugChar(c: Byte)
      modifies this`output
      ensures output == old(output) + [c]
    {
      output := output + [c];
    }

    method GetDebugChar() returns (ok: bool, c: Byte)
      modifies this`input
      ensures ok <==> old(input) != []
      ensures ok ==> c == old(input)[0] && input == old(input)[1..]
    {
      ok, c := input != [], 0;
      if ok {
        c, input := input[0], input[1..];
      }
    }

    method PutByte(b: Byte)
      modifies this`output
      ensures output == old(output) + TwoDigits(b)
    {
      PutDebugChar(HexDigit(b / 16));
      PutDebugChar(HexDigit(b % 16));
    }

    // -------------------------------------------------------------------------
    // Sending

    /** Sends the text of the buffer as one packet, and does not wait. */
    method SendFrame(buffer: array<Byte>)
      requires 0 in buffer[..]
      modifies this`output
      ensures output == old(output) + Frame(CString(buffer[..]))
    {
      hide SumBytes, TwoDigits, CString;
      ghost var s, p := buffer[..], CString(buffer[..]);
      PutDebugChar(DOLLAR);
      var checksum: Byte := 0;
      var count := 0;
      SumOfNone();
      assert s[0..] == s;
      ghost var sent: Bytes := [];
      while buffer[count] != 0
        invariant 0 <= count < buffer.Length && 0 in s[count..] && s == buffer[..]
        invariant p == sent + CString(s[count..])
        invariant output == old(output) + ([DOLLAR] + sent) && checksum == SumBytes(0, sent)
        decreases buffer.Length - count
      {
        var ch := buffer[count];
        NextChar(s, count);
        PutDebugChar(ch);
        SumSnoc(0, sent, ch);
        AppendsChar(sent, ch, CString(s[count + 1..]));
        checksum := (checksum + ch) % 256;
        sent := sent + [ch];
        count := count + 1;
      }
      LastChar(s, count);
      assert p == sent;
      PutDebugChar(HASH);
      PutByte(checksum);
      assert output == old(output) + ([DOLLAR] + p + [HASH] + TwoDigits(checksum));
    }

    method PutPacket(buffer: array<Byte>) returns (ok: bool)
      requires 0 in buffer[..]
      modifies this
      ensures match GdbPackets.PutPacket(CString(buffer[..]), old(input))
              case Waits(o) => !ok && output == old(output) + o
              case Acked(o, rest) => ok && output == old(output) + o && input == rest
    {
      hide Frame, FirstAnswer, CString, GdbPackets.PutPacket, AfterSending;
      ghost var p := CString(buffer[..]);
      ghost var whole := GdbPackets.PutPacket(p, input);
      ghost var sent: Bytes := [];
      NothingSent(whole);
      while true
        invariant output == old(output) + sent && whole == AfterSending(sent, GdbPackets.PutPacket(p, input))
        decreases |input|
      {
        SendFrame(buffer);
        SendsAgain(p, input, sent);
        var plus;
        ok, plus := AwaitAnswer();
        if !ok || plus {
          return;
        }
        sent := sent + Frame(p);
      }
    }

    /** Waits for a '+' or '-'. */
    method AwaitAnswer() returns (ok: bool, plus: bool)
      modifies this`input
      ensures match FirstAnswer(old(input))
              case NoAnswer => !ok
              case Answer(p, rest) => ok && plus == p && input == rest
    {
      ghost var first := FirstAnswer(input);
      var ch;
      ok, ch := GetDebugChar();
      plus := false;
      while ok && ch != PLUS && ch != MINUS
        invariant ok ==> first == if ch == PLUS || ch == MINUS then Answer(ch == PLUS, input) else FirstAnswer(input)
        invariant !ok ==> first == NoAnswer
        decreases ok, |input|
      {
        ok, ch := GetDebugChar();
      }
      plus := ok && ch == PLUS;
    }

    // -------------------------------------------------------------------------
    // Receiving

    method AwaitDollar() returns (ok: bool)
      modifies this`input
      ensures match AfterDollar(old(input))
              case NoStart => !ok
              case Started(rest) => ok && input == rest
    {
      ghost var start := AfterDollar(input);
      var ch;
      ok, ch := GetDebugChar();
      while ok && ch != DOLLAR
        invariant ok ==> start == if ch == DOLLAR then Started(input) else AfterDollar(input)
        invariant !ok ==> start == NoStart
        decreases ok, |input|
      {
        ok, ch := GetDebugChar();
      }
    }

    /** Reads up to a '#' or until the buffer is full. */
    method ReadPayload(buffer: array<Byte>) returns (ok: bool, count: nat, checksum: Byte)
      requires buffer.Length == BUFMAX
      modifies this`input, buffer
      ensures count <= BUFMAX
      ensures match Collect(old(input), [])
              case Unfinished => !ok
              case TooLong(rest) => ok && count == BUFMAX && input == rest
              case Ended(p, rest) =>
                ok && count < BUFMAX && buffer[..count] == p && checksum == PacketSum(p) && input == rest
    {
      hide SumBytes;
      ghost var whole := Collect(input, []);
      checksum, count := 0, 0;
      assert buffer[..0] == [];
      SumOfNone();
      while count < BUFMAX
        invariant 0 <= count <= BUFMAX
        invariant Collect(input, buffer[..count]) == whole && checksum == SumBytes(0, buffer[..count])
        decreases BUFMAX - count
      {
        ghost var soFar := buffer[..count];
        var ch;
        ok, ch := GetDebugChar();
        if !ok {
          return;
        }
        if ch == HASH {
          return;
        }
        SumSnoc(0, soFar, ch);
        checksum := (checksum + ch) % 256;
        buffer[count] := ch;
        count := count + 1;
        assert buffer[..count] == soFar + [ch];
      }
      ok := true;
    }

    method PutLength(count: nat)
      modifies this`output
      ensures output == old(output) + LengthText(count)
    {
      hide HexDigit;
      PutDebugChar(LESS);
      PutDebugChar(HexDigit(count / 4096 % 16));
      PutDebugChar(HexDigit(count / 256 % 16));
      PutDebugChar(HexDigit(count / 16 % 16));
      PutDebugChar(HexDigit(count % 16));
      PutDebugChar(COLON);
    }

    /** Quotes a packet whose checksum is wrong. */
    method Refuse(buffer: array<Byte>, count: nat, checksum: Byte)
      requires count < buffer.Length && checksum == PacketSum(buffer[..count])
      modifies this`output
      ensures output == old(output) + Refusal(buffer[..count])
    {
      hide PacketSum, TwoDigits, LengthText;
      PutLength(count);
      ghost var head := output;
      var i := 0;
      while i < count
        invariant 0 <= i <= count && output == head + buffer[..i]
      {
        PutDebugChar(buffer[i]);
        assert buffer[..i + 1] == buffer[..i] + [buffer[i]];
        i := i + 1;
      }
      PutDebugChar(HASH);
      PutByte(checksum);
      PutDebugChar(GREATER);
      PutDebugChar(MINUS);
    }

    /** Receives one packet, and answers it. */
    method ReceiveOnce(buffer: array<Byte>) returns (ok: bool, accepted: bool, count: nat)
      requires buffer.Length == BUFMAX
      modifies this, buffer
      ensures match TryPacket(old(input))
              case Incomplete => !ok && output == old(output)
              case Refused(reply, rest) => ok && !accepted && output == old(output) + reply && input == rest
              case Accepted(p, rest) =>
                ok && accepted && output == old(output) + [PLUS] && input == rest &&
                count < BUFMAX && buffer[..count] == p && buffer[count] == 0
    {
      hide AfterDollar, Collect, HexPair, PacketSum, Refusal;
      accepted, count := false, 0;
      ok := AwaitDollar();
      if !ok {
        return;
      }
      var checksum;
      ok, count, checksum := ReadPayload(buffer);
      if !ok {
        return;
      }
      if count >= BUFMAX {
        PutDebugChar(MINUS);
        return;
      }
      ghost var p := buffer[..count];
      buffer[count] := 0;
      assert buffer[..count] == p;
      var c1, c2;
      ok, c1 := GetDebugChar();
      if !ok {
        return;
      }
      ok, c2 := GetDebugChar();
      if !ok {
        return;
      }
      var xmitcsum := HexPair(c1, c2);
      if checksum == xmitcsum {
        PutDebugChar(PLUS);
        accepted := true;
        return;
      }
      Refuse(buffer, count, checksum);
    }

    method GetPacket(buffer: array<Byte>) returns (ok: bool, count: nat)
      requires buffer.Length == BUFMAX
      modifies this, buffer
      ensures match GdbPackets.GetPacket(old(input))
              case Listening(o) => !ok && output == old(output) + o
              case Packet(p, rest, o) =>
                ok && output == old(output) + o && input == rest &&
                count < BUFMAX && buffer[..count] == p && buffer[count] == 0
    {
      hide TryPacket;
      ghost var whole := GdbPackets.GetPacket(input);
      ghost var replied: Bytes := [];
      count := 0;
      AfterNoReply(whole);
      while true
        invariant output == old(output) + replied && whole == AfterReply(replied, GdbPackets.GetPacket(input))
        decreases |input|
      {
        ghost var t := TryPacket(input);
        var accepted;
        ok, accepted, count := ReceiveOnce(buffer);
        if !ok || accepted {
          return;
        }
        RepliesAdd(replied, t.reply, GdbPackets.GetPacket(input));
        replied := replied + t.reply;
      }
    }
  }

  lemma SumOfNone()
    ensures SumBytes(0, []) == 0
  {
  }

  lemma NextChar(s: Bytes, k: nat)
    requires k < |s| && s[k] != 0 && 0 in s[k..]
    ensures k + 1 < |s| && 0 in s[k + 1..] && CString(s[k..]) == [s[k]] + CString(s[k + 1..])
  {
    assert s[k..] == [s[k]] + s[k + 1..];
  }

  lemma LastChar(s: Bytes, k: nat)
    requires k < |s| && s[k] == 0
    ensures CString(s[k..]) == []
  {
  }

  lemma AppendsChar(sent: Bytes, ch: Byte, more: Bytes)
    ensures sent + ([ch] + more) == sent + [ch] + more
  {
  }

  lemma AfterNoReply(r: Received)
    ensures AfterReply([], r) == r
  {
    match r
    case Listening(o) => assert [] + o == o;
    case Packet(_, _, o) => assert [] + o == o;
  }

  lemma RepliesAdd(a: Bytes, b: Bytes, r: Received)
    ensures AfterReply(a, AfterReply(b, r)) == AfterReply(a + b, r)
  {
    match r
    case Listening(o) => assert a + (b + o) == a + b + o;
    case Packet(_, _, o) => assert a + (b + o) == a + b + o;
  }

  lemma NothingSent(s: Sent)
    ensures AfterSending([], s) == s
  {
    match s
    case Waits(o) => assert [] + o == o;
    case Acked(o, _) => assert [] + o == o;
  }

  /** What has been sent when the answer comes to one more frame. */
  function Answered(p: Bytes, sent: Bytes, a: Answer): Sent {
    match a
    case NoAnswer => Waits(sent + Frame(p))
    case Answer(plus, rest) =>
      if plus then Acked(sent + Frame(p), rest) else AfterSending(sent + Frame(p), GdbPackets.PutPacket(p, rest))
  }

  lemma SendsAgain(p: Bytes, inp: Bytes, sent: Bytes)
    ensures AfterSending(sent, GdbPackets.PutPacket(p, inp)) == Answered(p, sent, FirstAnswer(inp))
  {
    hide FirstAnswer, Frame;
    if FirstAnswer(inp).Answer? && !FirstAnswer(inp).plus {
      match GdbPackets.PutPacket(p, FirstAnswer(inp).rest)
      case Waits(o) => assert sent + (Frame(p) + o) == sent + Frame(p) + o;
      case Acked(o, _) => assert sent + (Frame(p) + o) == sent + Frame(p) + o;
    }
  }

  // ---------------------------------------------------------------------------
  // Memory and registers

  method PutPair(buf: array<Byte>, at: nat, b: Byte)
    requires at + 2 <= buf.Length
    modifies buf
    ensures buf[..at + 2] == old(buf[..at]) + TwoDigits(b)
  {
    hide HexDigit;
    buf[at] := HexDigit(b / 16);
    buf[at + 1] := HexDigit(b % 16);
  }

  /** Writes count bytes as text at a place in the buffer, and a NUL behind it. */
  method PutHex(mem: array<Byte>, from: nat, count: nat, buf: array<Byte>, at: nat) returns (end: nat)
    requires from + count <= mem.Length && at + 2 * count < buf.Length && mem != buf
    modifies buf
    ensures end == at + 2 * count && buf[end] == 0
    ensures buf[..end] == old(buf[..at]) + Mem2Hex(mem[from..from + count])
  {
    hide TwoDigits, Mem2Hex;
    end := at;
    var k := 0;
    NoBytes();
    assert mem[from..from] == [];
    while k < count
      invariant 0 <= k <= count && end == at + 2 * k
      invariant buf[..end] == old(buf[..at]) + Mem2Hex(mem[from..from + k])
    {
      var ch := mem[from + k];
      OneMoreByte(mem[from..from + k], ch);
      assert mem[from..from + k + 1] == mem[from..from + k] + [ch];
      PutPair(buf, end, ch);
      end, k := end + 2, k + 1;
    }
    buf[end] := 0;
  }

  lemma NoBytes()
    ensures Mem2Hex([]) == []
  {
  }

  lemma OneMoreByte(m: Bytes, b: Byte)
    ensures Mem2Hex(m + [b]) == Mem2Hex(m) + TwoDigits(b)
  {
    hide TwoDigits;
    Mem2HexAppends(m, [b]);
    assert [b][1..] == [] && Mem2Hex([b]) == TwoDigits(b) + Mem2Hex([]);
  }

  /** Writes the next block of registers behind the text of the earlier ones. */
  method PutBlock(regs: array<Byte>, from: nat, count: nat, buf: array<Byte>, at: nat) returns (end: nat)
    requires from + count <= regs.Length && at == 2 * from && 2 * (from + count) < buf.Length && regs != buf
    requires buf[..at] == Mem2Hex(regs[..from])
    modifies buf
    ensures end == 2 * (from + count) && buf[end] == 0 && buf[..end] == Mem2Hex(regs[..from + count])
  {
    hide Mem2Hex;
    end := PutHex(regs, from, count, buf, at);
    Mem2HexAppends(regs[..from], regs[from..from + count]);
    assert regs[..from] + regs[from..from + count] == regs[..from + count];
  }

  /** The answer to g: the six blocks of saved registers, one after another. */
  method GetRegisters(regs: array<Byte>, buf: array<Byte>)
    requires regs.Length == REGISTER_BYTES && buf.Length == BUFMAX && regs != buf
    modifies buf
    ensures Total(BLOCKS) == REGISTER_BYTES
    ensures CString(buf[..]) == RegisterText(regs[..], BLOCKS)
  {
    hide Mem2Hex, RegisterText, CString, Total;
    BlocksTotal();
    NoBytes();
    assert buf[..0] == [] && regs[..0] == [];
    var end := PutBlock(regs, 0, 32 * 4, buf, 0);
    end := PutBlock(regs, 128, 6 * 4, buf, end);
    end := PutBlock(regs, 152, 32 * 4, buf, end);
    end := PutBlock(regs, 280, 2 * 4, buf, end);
    end := PutBlock(regs, 288, 2 * 4, buf, end);
    end := PutBlock(regs, 296, 16 * 4, buf, end);
    assert regs[..360] == regs[..];
    assert buf[..end] == buf[..][..end];
    RegisterTextIs(regs[..], BLOCKS);
    TextInBuffer(regs[..], buf[..]);
  }

  lemma TextInBuffer(m: Bytes, s: Bytes)
    requires |s| > 2 * |m| && s[..2 * |m|] == Mem2Hex(m) && s[2 * |m|] == 0
    ensures CString(s) == Mem2Hex(m)
  {
    hide Mem2Hex;
    Mem2HexNoNul(m);
    CStringTaken(s, 2 * |m|);
  }

  lemma {:induction false} Mem2HexNoNul(m: Bytes)
    ensures Without(Mem2Hex(m), 0)
    decreases |m|
  {
    if m != [] {
      Mem2HexNoNul(m[1..]);
      assert Without(TwoDigits(m[0]), 0);
      hide TwoDigits;
    }
  }

  lemma {:induction false} CStringTaken(s: Bytes, n: nat)
    requires n < |s| && s[n] == 0 && Without(s[..n], 0)
    ensures CString(s) == s[..n]
    decreases n
  {
    if n > 0 {
      assert s[..n][0] == s[0];
      assert s[1..][..n - 1] == s[..n][1..];
      CStringTaken(s[1..], n - 1);
      assert s[..n] == [s[0]] + s[1..][..n - 1];
    }
  }

  /** Decodes text over up to count bytes, and returns where it stopped. */
  method GetHex(buf: array<Byte>, at: nat, mem: array<Byte>, from: nat, count: nat) returns (end: nat)
    requires at < buf.Length && 0 in buf[at..] && from + count <= mem.Length && mem != buf
    modifies mem
    ensures at <= end < buf.Length && 0 in buf[end..]
    ensures var d := SafeHex2Mem(CString(buf[at..]), count);
            mem[..] == old(mem[..from]) + d.bytes + old(mem[from + |d.bytes|..]) && CString(buf[end..]) == d.rest
  {
    hide HexPair, CString, SafeHex2Mem, IsHexDigit, Onto;
    ghost var s := buf[..];
    ghost var whole := SafeHex2Mem(CString(s[at..]), count);
    end := at;
    var i := 0;
    ghost var was, done: Bytes := mem[..], [];
    NothingDecoded(whole);
    while i < count
      invariant 0 <= i <= count && |done| == i && buf[..] == s && at <= end < |s| && 0 in s[end..]
      invariant forall k :: 0 <= k < mem.Length ==> mem[k] == if from <= k < from + i then done[k - from] else was[k]
      invariant whole == Onto(done, SafeHex2Mem(CString(s[end..]), count - i))
    {
      DecodeStep(s, end, count - i, done);
      if !IsHexDigit(buf[end]) || !IsHexDigit(buf[end + 1]) {
        break;
      }
      var b := HexPair(buf[end], buf[end + 1]);
      mem[from + i] := b;
      done := done + [b];
      end, i := end + 2, i + 1;
    }
    assert buf[at..] == s[at..] && buf[end..] == s[end..];
    DecodeStep(s, end, count - i, done);
    assert mem[..] == was[..from] + done + was[from + i..];
  }

  /** One look at the buffer: a pair is decoded, and anything else ends the decoding. */
  lemma DecodeStep(s: Bytes, k: nat, n: nat, done: Bytes)
    requires k < |s| && 0 in s[k..]
    ensures IsHexDigit(s[k]) ==> k + 1 < |s|
    ensures var pair := IsHexDigit(s[k]) && IsHexDigit(s[k + 1]);
            (pair ==> k + 2 < |s| && 0 in s[k + 2..]) &&
            Onto(done, SafeHex2Mem(CString(s[k..]), n)) ==
            if n > 0 && pair then Onto(done + [HexPair(s[k], s[k + 1])], SafeHex2Mem(CString(s[k + 2..]), n - 1))
            else Decoded(done, CString(s[k..]))
  {
    hide HexPair, CString, SafeHex2Mem, IsHexDigit, StartsWithPair, Onto;
    PairInBuffer(s, k);
    if n > 0 && IsHexDigit(s[k]) && IsHexDigit(s[k + 1]) {
      DecodesOneMore(CString(s[k..]), n, done);
    } else {
      Decodes(CString(s[k..]), n, done);
    }
  }

  /** What has been decoded before, with what is decoded now. */
  function Onto(done: Bytes, d: Decoded): Decoded {
    Decoded(done + d.bytes, d.rest)
  }

  lemma NothingDecoded(d: Decoded)
    ensures Onto([], d) == d
  {
    assert [] + d.bytes == d.bytes;
  }

  lemma Decodes(text: Bytes, n: nat, done: Bytes)
    requires n == 0 || !StartsWithPair(text)
    ensures Onto(done, SafeHex2Mem(text, n)) == Decoded(done, text)
  {
    assert done + [] == done;
  }

  lemma DecodesOneMore(text: Bytes, n: nat, done: Bytes)
    requires n > 0 && StartsWithPair(text)
    ensures Onto(done, SafeHex2Mem(text, n)) == Onto(done + [HexPair(text[0], text[1])], SafeHex2Mem(text[2..], n - 1))
  {
    hide HexPair;
    var b, d := HexPair(text[0], text[1]), SafeHex2Mem(text[2..], n - 1);
    assert done + ([b] + d.bytes) == done + [b] + d.bytes;
  }

  /** Looking at the first two characters of a text in a buffer: the NUL is not a digit. */
  lemma PairInBuffer(s: Bytes, k: nat)
    requires k < |s| && 0 in s[k..]
    ensures IsHexDigit(s[k]) ==> k + 1 < |s|
    ensures StartsWithPair(CString(s[k..])) <==> IsHexDigit(s[k]) && IsHexDigit(s[k + 1])
    ensures StartsWithPair(CString(s[k..])) ==>
              k + 2 < |s| && 0 in s[k + 2..] && CString(s[k..])[0] == s[k] && CString(s[k..])[1] == s[k + 1] &&
              CString(s[k..])[2..] == CString(s[k + 2..])
  {
    hide CString;
    if s[k] == 0 {
      LastChar(s, k);
    } else {
      NextChar(s, k);
      if s[k + 1] == 0 {
        LastChar(s, k + 1);
      } else {
        NextChar(s, k + 1);
      }
    }
  }

  /** Decodes one block of registers; the registers from here on come out as the remaining blocks
      would make them. */
  method SetBlock(regs: array<Byte>, from: nat, buf: array<Byte>, at: nat, n: nat, ghost blocks: seq<nat>)
    returns (end: nat)
    requires at < buf.Length && 0 in buf[at..] && regs != buf
    requires blocks != [] && blocks[0] == n && from + Total(blocks) == regs.Length
    modifies regs
    ensures at <= end < buf.Length && 0 in buf[end..] && from + n + Total(blocks[1..]) == regs.Length
    ensures regs[..from + n] + SetRegisters(regs[from + n..], CString(buf[end..]), blocks[1..]) ==
            old(regs[..from] + SetRegisters(regs[from..], CString(buf[at..]), blocks))
  {
    hide SafeHex2Mem, SetRegisters, CString;
    ghost var was, text := regs[..], CString(buf[at..]);
    ghost var d := SafeHex2Mem(text, n);
    end := GetHex(buf, at, regs, from, n);
    BlockSet(was[from..], text, blocks, d.bytes, d.rest);
    Sliced(regs[..], was, from, n, d.bytes);
    assert regs[from + n..] == was[from..][n..];
  }

  lemma Sliced(now: Bytes, was: Bytes, from: nat, n: nat, done: Bytes)
    requires |done| <= n && from + n <= |was| && now == was[..from] + done + was[from + |done|..]
    ensures now[..from + n] == was[..from] + (done + was[from..][|done|..n])
    ensures now[from + n..] == was[from..][n..]
  {
  }

  /** The effect of G on the saved registers, from its text behind the command letter. */
  method SetRegistersFrom(buf: array<Byte>, regs: array<Byte>)
    requires regs.Length == REGISTER_BYTES && buf.Length == BUFMAX && 0 in buf[1..] && regs != buf
    modifies regs
    ensures Total(BLOCKS) == REGISTER_BYTES
    ensures regs[..] == SetRegisters(old(regs[..]), CString(buf[1..]), BLOCKS)
  {
    hide SafeHex2Mem, SetRegisters, CString, Total;
    BlocksTotal();
    ghost var whole := SetRegisters(regs[..], CString(buf[1..]), BLOCKS);
    assert regs[..0] + SetRegisters(regs[0..], CString(buf[1..]), BLOCKS) == whole by {
      assert regs[0..] == regs[..];
    }
    var ptr := SetBlock(regs, 0, buf, 1, 32 * 4, BLOCKS);
    assert BLOCKS[1..] == [24, 128, 8, 8, 64];
    ptr := SetBlock(regs, 128, buf, ptr, 6 * 4, [24, 128, 8, 8, 64]);
    assert [24, 128, 8, 8, 64][1..] == [128, 8, 8, 64];
    ptr := SetBlock(regs, 152, buf, ptr, 32 * 4, [128, 8, 8, 64]);
    assert [128, 8, 8, 64][1..] == [8, 8, 64];
    ptr := SetBlock(regs, 280, buf, ptr, 2 * 4, [8, 8, 64]);
    assert [8, 8, 64][1..] == [8, 64];
    ptr := SetBlock(regs, 288, buf, ptr, 2 * 4, [8, 64]);
    assert [8, 64][1..] == [64];
    ptr := SetBlock(regs, 296, buf, ptr, 16 * 4, [64]);
    assert [64][1..] == [];
    NoBlocks(regs[360..], CString(buf[ptr..]));
    assert regs[..360] + [] == regs[..];
  }

  lemma NoBlocks(regs: Bytes, text: Bytes)
    requires |regs| == Total([])
    ensures SetRegisters(regs, text, []) == [] && Total([]) == 0
  {
  }
}
