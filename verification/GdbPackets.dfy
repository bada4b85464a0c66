/** The debugger's packets: framing, checksums and acknowledgements, and the hexadecimal text of
    memory and registers. */
module GdbPackets {
  import opened Words
  import opened Text

  /** The packet buffers hold this many characters. */
  const BUFMAX := 2048

  const DOLLAR: Byte := 36
  const HASH: Byte := 35
  const PLUS: Byte := 43
  const MINUS: Byte := 45
  const COLON: Byte := 58
  const LESS: Byte := 60
  const GREATER: Byte := 62
  const SET_REGISTERS: Byte := 71    // 'G'

  /** The marks in ASCII. */
  lemma MarksAre()
    ensures [DOLLAR, HASH, PLUS, MINUS, COLON, LESS, GREATER, SET_REGISTERS] == Ascii("$#+-:<>G")
  {
  }

  // ---------------------------------------------------------------------------
  // Hexadecimal digits

  /** The value of a digit, or -1. */
  function Hex(c: Byte): (v: int)
    ensures -1 <= v < 16
  {
    if 97 <= c <= 102 then c - 87
    else if 48 <= c <= 57 then c - 48
    else if 65 <= c <= 70 then c - 55
    else -1
  }

  /** Two digits as an unsigned char: (hex(c1) << 4) | hex(c2). The -1 of a bad digit has every bit
      set, so a bad first digit counts as f, and a bad second one makes the whole 0xff. */
  function HexPair(c1: Byte, c2: Byte): Byte {
    if Hex(c2) < 0 then 255
    else (if Hex(c1) < 0 then 240 else 16 * Hex(c1)) + Hex(c2)
  }

  function TwoDigits(b: Byte): (ds: Bytes)
    ensures |ds| == 2 && Hex(ds[0]) == b / 16 && Hex(ds[1]) == b % 16 && HexPair(ds[0], ds[1]) == b
  {
    [HexDigit(b / 16), HexDigit(b % 16)]
  }

  // ---------------------------------------------------------------------------
  // Small and capital digits

  const SMALL_DIGITS: string := "0123456789abcdef"
  const CAPITAL_DIGITS: string := "0123456789ABCDEF"

  /** The character is the digit of value d, small or capital. */
  predicate IsDigit(c: Byte, d: nat)
    requires d < 16
  {
    c == SMALL_DIGITS[d] as int || c == CAPITAL_DIGITS[d] as int
  }

  /** Two characters that write a byte. */
  predicate Spells(c1: Byte, c2: Byte, b: Byte) {
    IsDigit(c1, b / 16) && IsDigit(c2, b % 16)
  }

  /** The stub reads exactly these characters as digits, with these values. */
  lemma HexReadsDigits(c: Byte)
    ensures forall d: nat :: d < 16 ==> (Hex(c) == d <==> IsDigit(c, d))
    ensures Hex(c) < 0 <==> forall d: nat :: d < 16 ==> !IsDigit(c, d)
  {
    assert Hex(c) >= 0 ==> IsDigit(c, Hex(c));
  }

  lemma SpellsReads(c1: Byte, c2: Byte, b: Byte)
    requires Spells(c1, c2, b)
    ensures HexPair(c1, c2) == b && IsHexDigit(c1) && IsHexDigit(c2)
  {
    HexReadsDigits(c1);
    HexReadsDigits(c2);
  }

  /** The stub itself writes small digits. */
  lemma WritesSmallDigits(b: Byte)
    ensures TwoDigits(b) == [SMALL_DIGITS[b / 16] as int, SMALL_DIGITS[b % 16] as int]
  {
  }

  // ---------------------------------------------------------------------------
  // Sending

  function PacketSum(p: Bytes): Byte {
    SumBytes(0, p)
  }

  function Frame(p: Bytes): Bytes {
    [DOLLAR] + p + [HASH] + TwoDigits(PacketSum(p))
  }

  datatype Answer = NoAnswer | Answer(plus: bool, rest: Bytes)

  /** The first '+' or '-'; everything else is ignored. */
  function FirstAnswer(inp: Bytes): (a: Answer)
    ensures a.Answer? ==> |a.rest| < |inp|
    decreases |inp|
  {
    if inp == [] then NoAnswer
    else if inp[0] == PLUS || inp[0] == MINUS then Answer(inp[0] == PLUS, inp[1..])
    else FirstAnswer(inp[1..])
  }

  datatype Sent = Waits(out: Bytes) | Acked(out: Bytes, rest: Bytes)

  function AfterSending(out: Bytes, s: Sent): Sent {
    match s
    case Waits(o) => Waits(out + o)
    case Acked(o, rest) => Acked(out + o, rest)
  }

  /** Sends the packet again after every '-', until a '+'. */
  function PutPacket(p: Bytes, inp: Bytes): Sent
    decreases |inp|
  {
    match FirstAnswer(inp)
    case NoAnswer => Waits(Frame(p))
    case Answer(plus, rest) => if plus then Acked(Frame(p), rest) else AfterSending(Frame(p), PutPacket(p, rest))
  }

  // ---------------------------------------------------------------------------
  // Receiving

  datatype Start = NoStart | Started(rest: Bytes)

  function AfterDollar(inp: Bytes): (s: Start)
    ensures s.Started? ==> |s.rest| < |inp|
    decreases |inp|
  {
    if inp == [] then NoStart else if inp[0] == DOLLAR then Started(inp[1..]) else AfterDollar(inp[1..])
  }

  datatype Payload = Unfinished | TooLong(rest: Bytes) | Ended(buf: Bytes, rest: Bytes)

  /** Reads up to a '#', or until the buffer is full. */
  function Collect(inp: Bytes, buf: Bytes): (r: Payload)
    requires |buf| <= BUFMAX
    ensures r.TooLong? ==> |r.rest| <= |inp|
    ensures r.Ended? ==> |r.buf| < BUFMAX && |r.rest| < |inp|
    decreases |inp|
  {
    if |buf| == BUFMAX then TooLong(inp)
    else if inp == [] then Unfinished
    else if inp[0] == HASH then Ended(buf, inp[1..])
    else Collect(inp[1..], buf + [inp[0]])
  }

  function LengthText(n: nat): Bytes {
    [LESS, HexDigit(n / 4096 % 16), HexDigit(n / 256 % 16), HexDigit(n / 16 % 16), HexDigit(n % 16), COLON]
  }

  /** Four digits that read as the length. */
  lemma LengthReads(n: nat)
    requires n < 0x1_0000
    ensures var t := LengthText(n);
            |t| == 6 && t[0] == '<' as int && t[5] == ':' as int &&
            forall k :: 1 <= k <= 4 ==> 0 <= Hex(t[k]) && t[k] == SMALL_DIGITS[Hex(t[k])] as int
    ensures var t := LengthText(n);
            Hex(t[1]) * 0x1000 + Hex(t[2]) * 0x100 + Hex(t[3]) * 0x10 + Hex(t[4]) == n
  {
    hide Hex, HexDigit;
    FourDigits(n);
    SmallDigit(n / 4096 % 16);
    SmallDigit(n / 256 % 16);
    SmallDigit(n / 16 % 16);
    SmallDigit(n % 16);
  }

  lemma FourDigits(n: nat)
    requires n < 0x1_0000
    ensures n / 4096 % 16 * 0x1000 + n / 256 % 16 * 0x100 + n / 16 % 16 * 0x10 + n % 16 == n
  {
    var q := n / 16;
    var p := q / 16;
    DivModUnique(n, 256, p, q % 16 * 16 + n % 16);
    DivModUnique(n, 4096, p / 16, p % 16 * 256 + q % 16 * 16 + n % 16);
  }

  lemma SmallDigit(d: nat)
    requires d < 16
    ensures Hex(HexDigit(d)) == d && HexDigit(d) == SMALL_DIGITS[d] as int
  {
  }

  /** What a packet with a wrong checksum is answered: its length, text and expected checksum for a
      human reader, and a '-'. */
  function Refusal(p: Bytes): Bytes {
    LengthText(|p|) + p + [HASH] + TwoDigits(PacketSum(p)) + [GREATER] + [MINUS]
  }

  datatype Received = Listening(replies: Bytes) | Packet(payload: Bytes, rest: Bytes, replies: Bytes)

  function AfterReply(out: Bytes, r: Received): Received {
    match r
    case Listening(o) => Listening(out + o)
    case Packet(p, rest, o) => Packet(p, rest, out + o)
  }

  datatype Attempt = Incomplete | Refused(reply: Bytes, rest: Bytes) | Accepted(payload: Bytes, rest: Bytes)

  /** One packet: too long, wrong or right. */
  function TryPacket(inp: Bytes): (t: Attempt)
    ensures t.Refused? ==> |t.rest| < |inp|
  {
    match AfterDollar(inp)
    case NoStart => Incomplete
    case Started(body) =>
      match Collect(body, [])
      case Unfinished => Incomplete
      case TooLong(rest) => Refused([MINUS], rest)
      case Ended(p, rest) =>
        if |rest| < 2 then Incomplete
        else if PacketSum(p) == HexPair(rest[0], rest[1]) then Accepted(p, rest[2..])
        else Refused(Refusal(p), rest[2..])
  }

  function GetPacket(inp: Bytes): Received
    decreases |inp|
  {
    match TryPacket(inp)
    case Incomplete => Listening([])
    case Refused(reply, rest) => AfterReply(reply, GetPacket(rest))
    case Accepted(p, rest) => Packet(p, rest, [PLUS])
  }

  // ---------------------------------------------------------------------------
  // One packet

  predicate Without(bs: Bytes, c: Byte) {
    forall i :: 0 <= i < |bs| ==> bs[i] != c
  }

  /** A packet as it arrives: noise, the payload and two characters of checksum. */
  function Arrival(noise: Bytes, p: Bytes, c1: Byte, c2: Byte, rest: Bytes): Bytes {
    noise + ([DOLLAR] + (p + ([HASH] + ([c1, c2] + rest))))
  }

  lemma {:induction false} SkipsNoise(noise: Bytes, body: Bytes)
    requires Without(noise, DOLLAR)
    ensures AfterDollar(noise + ([DOLLAR] + body)) == Started(body)
    decreases |noise|
  {
    var inp := noise + ([DOLLAR] + body);
    if noise == [] {
      assert inp == [DOLLAR] + body;
      assert inp[1..] == body;
    } else {
      assert inp[0] == noise[0] && inp[1..] == noise[1..] + ([DOLLAR] + body);
      SkipsNoise(noise[1..], body);
    }
  }

  lemma {:induction false} CollectsPayload(p: Bytes, rest: Bytes, buf: Bytes)
    requires Without(p, HASH) && |buf| + |p| < BUFMAX
    ensures Collect(p + ([HASH] + rest), buf) == Ended(buf + p, rest)
    decreases |p|
  {
    var inp := p + ([HASH] + rest);
    if p == [] {
      assert inp == [HASH] + rest;
      assert inp[1..] == rest && buf + p == buf;
    } else {
      assert inp[0] == p[0] && inp[1..] == p[1..] + ([HASH] + rest);
      CollectsPayload(p[1..], rest, buf + [p[0]]);
      assert buf + [p[0]] + p[1..] == buf + p;
    }
  }

  /** One complete packet is returned, or refused and the next one awaited. */
  lemma OnePacket(noise: Bytes, p: Bytes, c1: Byte, c2: Byte, rest: Bytes)
    requires Without(noise, DOLLAR) && Without(p, HASH) && |p| < BUFMAX
    ensures GetPacket(Arrival(noise, p, c1, c2, rest)) ==
            if PacketSum(p) == HexPair(c1, c2) then Packet(p, rest, [PLUS])
            else AfterReply(Refusal(p), GetPacket(rest))
  {
    hide PacketSum, HexPair, Refusal;
    var tail := [c1, c2] + rest;
    SkipsNoise(noise, p + ([HASH] + tail));
    CollectsPayload(p, tail, []);
    assert [] + p == p;
    assert tail[0] == c1 && tail[1] == c2 && tail[2..] == rest;
  }

  /** When two characters pass for a checksum: they spell it, or a bad digit happens to fit. */
  lemma ChecksumAccepts(sum: Byte, c1: Byte, c2: Byte)
    ensures sum == HexPair(c1, c2) <==>
            (Hex(c1) == sum / 16 && Hex(c2) == sum % 16) ||
            (Hex(c1) < 0 && sum / 16 == 15 && Hex(c2) == sum % 16) ||
            (Hex(c2) < 0 && sum == 255)
  {
    hide Hex;
    if Hex(c1) >= 0 && Hex(c2) >= 0 {
      DivModUnique(16 * Hex(c1) + Hex(c2), 16, Hex(c1), Hex(c2));
    } else if Hex(c2) >= 0 {
      DivModUnique(240 + Hex(c2), 16, 15, Hex(c2));
    }
  }

  lemma FrameArrives(noise: Bytes, p: Bytes, rest: Bytes)
    ensures noise + Frame(p) + rest == Arrival(noise, p, TwoDigits(PacketSum(p))[0], TwoDigits(PacketSum(p))[1], rest)
  {
    hide PacketSum, TwoDigits;
    var ds := TwoDigits(PacketSum(p));
    assert ds == [ds[0], ds[1]];
  }

  /** What one side sends, the other receives and acknowledges, whatever noise precedes it. */
  lemma PacketRoundTrip(noise: Bytes, p: Bytes, rest: Bytes)
    requires Without(noise, DOLLAR) && Without(p, HASH) && |p| < BUFMAX
    ensures GetPacket(noise + Frame(p) + rest) == Packet(p, rest, [PLUS])
  {
    hide GetPacket, Frame, Arrival, HexPair, PacketSum;
    FrameArrives(noise, p, rest);
    var ds := TwoDigits(PacketSum(p));
    OnePacket(noise, p, ds[0], ds[1], rest);
  }

  /** The same for a checksum in small or capital digits. */
  lemma SpelledPacket(noise: Bytes, p: Bytes, c1: Byte, c2: Byte, rest: Bytes)
    requires Without(noise, DOLLAR) && Without(p, HASH) && |p| < BUFMAX && Spells(c1, c2, PacketSum(p))
    ensures GetPacket(noise + ([DOLLAR] + p + [HASH] + [c1, c2]) + rest) == Packet(p, rest, [PLUS])
  {
    hide GetPacket, Arrival, HexPair, PacketSum;
    SpellsReads(c1, c2, PacketSum(p));
    assert noise + ([DOLLAR] + p + [HASH] + [c1, c2]) + rest == Arrival(noise, p, c1, c2, rest) by {
      Arranged(noise, p, c1, c2, rest);
    }
    OnePacket(noise, p, c1, c2, rest);
  }

  lemma Arranged(noise: Bytes, p: Bytes, c1: Byte, c2: Byte, rest: Bytes)
    ensures noise + ([DOLLAR] + p + [HASH] + [c1, c2]) + rest == Arrival(noise, p, c1, c2, rest)
  {
  }

  // ---------------------------------------------------------------------------
  // Every accepted packet

  lemma {:induction false} DollarFound(inp: Bytes) returns (noise: Bytes)
    requires AfterDollar(inp).Started?
    ensures Without(noise, DOLLAR) && inp == noise + ([DOLLAR] + AfterDollar(inp).rest)
    decreases |inp|
  {
    if inp[0] == DOLLAR {
      noise := [];
    } else {
      noise := DollarFound(inp[1..]);
      noise := [inp[0]] + noise;
    }
  }

  lemma {:induction false} CollectFound(inp: Bytes, buf: Bytes) returns (p: Bytes)
    requires |buf| <= BUFMAX && Collect(inp, buf).Ended?
    ensures var c := Collect(inp, buf);
            Without(p, HASH) && c.buf == buf + p && inp == p + ([HASH] + c.rest)
    decreases |inp|
  {
    if inp[0] == HASH {
      p := [];
    } else {
      p := CollectFound(inp[1..], buf + [inp[0]]);
      p := [inp[0]] + p;
    }
  }

  lemma ArrivesLater(head: Bytes, noise: Bytes, p: Bytes, c1: Byte, c2: Byte, rest: Bytes)
    ensures head + Arrival(noise, p, c1, c2, rest) == Arrival(head + noise, p, c1, c2, rest)
  {
  }

  /** The input of a complete packet, whose characters are found. */
  lemma PacketFound(inp: Bytes) returns (noise: Bytes, p: Bytes, c1: Byte, c2: Byte, rest: Bytes)
    requires AfterDollar(inp).Started? && Collect(AfterDollar(inp).rest, []).Ended?
    requires |Collect(AfterDollar(inp).rest, []).rest| >= 2
    ensures Collect(AfterDollar(inp).rest, []) == Ended(p, [c1, c2] + rest)
    ensures Without(p, HASH) && Without(noise, DOLLAR)
    ensures inp == Arrival(noise, p, c1, c2, rest)
  {
    hide AfterDollar, Collect, Without;
    noise := DollarFound(inp);
    var body := AfterDollar(inp).rest;
    p := CollectFound(body, []);
    assert [] + p == p;
    var tail := Collect(body, []).rest;
    c1, c2, rest := tail[0], tail[1], tail[2..];
    assert tail == [c1, c2] + rest;
  }

  predicate EndsWithPlus(replies: Bytes) {
    |replies| > 0 && replies[|replies| - 1] == PLUS
  }

  /** A payload is only ever returned from a complete packet whose checksum passes, and then the
      last reply is its acknowledgement. */
  lemma {:induction false} AcceptedWasSent(inp: Bytes) returns (before: Bytes, c1: Byte, c2: Byte)
    requires GetPacket(inp).Packet?
    ensures var r := GetPacket(inp);
            inp == Arrival(before, r.payload, c1, c2, r.rest) && Without(r.payload, HASH) &&
            |r.payload| < BUFMAX && PacketSum(r.payload) == HexPair(c1, c2) && EndsWithPlus(r.replies)
    decreases |inp|
  {
    hide PacketSum, HexPair, Refusal, AfterDollar, Collect, Arrival, Without;
    var body := AfterDollar(inp).rest;
    if Collect(body, []).TooLong? {
      var rest := Collect(body, []).rest;
      before, c1, c2 := AcceptedWasSent(rest);
      var noise := DollarFound(inp);
      var head := TooLongFound(body, []);
      head := noise + ([DOLLAR] + head);
      assert inp == head + rest;
      var r := GetPacket(rest);
      ArrivesLater(head, before, r.payload, c1, c2, r.rest);
      before := head + before;
    } else {
      var noise, p, d1, d2, rest := PacketFound(inp);
      assert ([d1, d2] + rest)[2..] == rest;
      if PacketSum(p) == HexPair(d1, d2) {
        before, c1, c2 := noise, d1, d2;
      } else {
        before, c1, c2 := AcceptedWasSent(rest);
        var head := Arrival(noise, p, d1, d2, []);
        SplitArrival(noise, p, d1, d2, rest);
        var r := GetPacket(rest);
        ArrivesLater(head, before, r.payload, c1, c2, r.rest);
        before := head + before;
      }
    }
  }

  lemma SplitArrival(noise: Bytes, p: Bytes, c1: Byte, c2: Byte, rest: Bytes)
    ensures Arrival(noise, p, c1, c2, rest) == Arrival(noise, p, c1, c2, []) + rest
  {
    assert [c1, c2] + [] + rest == [c1, c2] + rest;
  }

  lemma {:induction false} TooLongFound(inp: Bytes, buf: Bytes) returns (head: Bytes)
    requires |buf| <= BUFMAX && Collect(inp, buf).TooLong?
    ensures inp == head + Collect(inp, buf).rest && |head| == BUFMAX - |buf| && Without(head, HASH)
    decreases |inp|
  {
    if |buf| == BUFMAX {
      head := [];
    } else {
      head := TooLongFound(inp[1..], buf + [inp[0]]);
      head := [inp[0]] + head;
    }
  }

  // ---------------------------------------------------------------------------
  // How long a payload may be

  lemma {:induction false} CollectsTooMuch(p: Bytes, rest: Bytes, buf: Bytes)
    requires Without(p, HASH) && |buf| + |p| == 2048
    ensures Collect(p + rest, buf) == TooLong(rest)
    decreases |p|
  {
    if p == [] {
      assert p + rest == rest;
    } else {
      assert (p + rest)[0] == p[0] && (p + rest)[1..] == p[1..] + rest;
      CollectsTooMuch(p[1..], rest, buf + [p[0]]);
    }
  }

  /** A packet of 2048 characters or more is answered '-' before its end is seen, and the rest of it is
      noise; PacketRoundTrip is for any shorter one. */
  lemma TooLongRefused(noise: Bytes, p: Bytes, rest: Bytes)
    requires Without(noise, DOLLAR) && Without(p, HASH) && |p| == 2048
    ensures GetPacket(noise + ([DOLLAR] + (p + rest))) == AfterReply(['-' as int], GetPacket(rest))
  {
    SkipsNoise(noise, p + rest);
    CollectsTooMuch(p, rest, []);
  }

  // ---------------------------------------------------------------------------
  // One wrong character, and the retransmission

  /** A frame in which the k-th character of the payload has become b. */
  function Corrupted(p: Bytes, k: nat, b: Byte): Bytes
    requires k < |p|
  {
    [DOLLAR] + p[k := b] + [HASH] + TwoDigits(PacketSum(p))
  }

  /** A wrong character in the payload is refused. */
  lemma CorruptionRefused(noise: Bytes, p: Bytes, k: nat, b: Byte, rest: Bytes)
    requires Without(noise, DOLLAR) && Without(p, HASH) && |p| < BUFMAX
    requires k < |p| && b != p[k] && b != HASH
    ensures GetPacket(noise + Corrupted(p, k, b) + rest) == AfterReply(Refusal(p[k := b]), GetPacket(rest))
  {
    hide GetPacket, HexPair, Refusal, SumBytes;
    var q, ds := p[k := b], TwoDigits(PacketSum(p));
    SumNotices(0, p, k, b);
    assert noise + Corrupted(p, k, b) + rest == Arrival(noise, q, ds[0], ds[1], rest) by {
      assert ds == [ds[0], ds[1]];
    }
    OnePacket(noise, q, ds[0], ds[1], rest);
  }

  lemma {:induction false} NoAnswerIn(bs: Bytes, more: Bytes)
    requires Without(bs, PLUS) && Without(bs, MINUS)
    ensures FirstAnswer(bs + more) == FirstAnswer(more)
    decreases |bs|
  {
    if bs == [] {
      assert bs + more == more;
    } else {
      assert (bs + more)[0] == bs[0] && (bs + more)[1..] == bs[1..] + more;
      NoAnswerIn(bs[1..], more);
    }
  }

  lemma {:induction false} AnswerStands(bs: Bytes, more: Bytes)
    requires FirstAnswer(bs).Answer?
    ensures FirstAnswer(bs + more) == Answer(FirstAnswer(bs).plus, FirstAnswer(bs).rest + more)
    decreases |bs|
  {
    assert (bs + more)[0] == bs[0] && (bs + more)[1..] == bs[1..] + more;
    if bs[0] != PLUS && bs[0] != MINUS {
      AnswerStands(bs[1..], more);
    }
  }

  lemma {:induction false} NoAnswerMeans(bs: Bytes)
    requires FirstAnswer(bs).NoAnswer?
    ensures Without(bs, PLUS) && Without(bs, MINUS)
    decreases |bs|
  {
    if bs != [] {
      NoAnswerMeans(bs[1..]);
      assert forall i :: 0 <= i < |bs| ==> bs[i] == if i == 0 then bs[0] else bs[1..][i - 1];
    }
  }

  lemma RefusalParts(q: Bytes) returns (head: Bytes, foot: Bytes)
    ensures Refusal(q) == head + (q + (foot + [MINUS]))
    ensures Without(head, PLUS) && Without(head, MINUS) && Without(foot, PLUS) && Without(foot, MINUS)
  {
    head := LengthText(|q|);
    foot := [HASH] + TwoDigits(PacketSum(q)) + [GREATER];
    assert TwoDigits(PacketSum(q)) == [HexDigit(PacketSum(q) / 16), HexDigit(PacketSum(q) % 16)];
  }

  /** A refusal quotes the payload, so the sender answers to the first '+' or '-' quoted: it takes
      the refusal for an acknowledgement exactly when that is a '+'. */
  lemma RefusalReads(q: Bytes, more: Bytes)
    ensures FirstAnswer(Refusal(q) + more).Answer?
    ensures FirstAnswer(Refusal(q) + more).plus <==> FirstAnswer(q).Answer? && FirstAnswer(q).plus
    ensures FirstAnswer(q).NoAnswer? ==> FirstAnswer(Refusal(q) + more) == Answer(false, more)
  {
    hide Refusal;
    var head, foot := RefusalParts(q);
    var tail := foot + ([MINUS] + more);
    assert Refusal(q) + more == head + (q + tail);
    NoAnswerIn(head, q + tail);
    if FirstAnswer(q).Answer? {
      AnswerStands(q, tail);
    } else {
      NoAnswerMeans(q);
      NoAnswerIn(q, tail);
      NoAnswerIn(foot, [MINUS] + more);
      assert ([MINUS] + more)[1..] == more;
    }
  }

  /** Sender and receiver together recover from a wrong character, if the payload as received holds
      no '+' or '-': the packet is refused, sent again, and accepted. */
  lemma Retransmission(noise: Bytes, p: Bytes, k: nat, b: Byte)
    requires Without(noise, DOLLAR) && Without(p, HASH) && |p| < BUFMAX
    requires k < |p| && b != p[k] && b != HASH && FirstAnswer(p[k := b]).NoAnswer?
    ensures var replies := Refusal(p[k := b]) + [PLUS];
            GetPacket(noise + Corrupted(p, k, b) + Frame(p)) == Packet(p, [], replies) &&
            PutPacket(p, replies) == Acked(Frame(p) + Frame(p), [])
  {
    hide GetPacket, Frame, Corrupted, Refusal;
    CorruptionRefused(noise, p, k, b, Frame(p));
    PacketRoundTrip([], p, []);
    assert [] + Frame(p) + [] == Frame(p);
    RefusalReads(p[k := b], [PLUS]);
    assert FirstAnswer([PLUS]) == Answer(true, []);
  }

  /** But if a '+' comes first in it, the sender stops after one transmission. */
  lemma QuotedPlusIsTakenForAck(p: Bytes, q: Bytes, more: Bytes)
    ensures PutPacket(p, Refusal(q) + more).Acked? && PutPacket(p, Refusal(q) + more).out == Frame(p) <==>
            FirstAnswer(q).Answer? && FirstAnswer(q).plus
  {
    hide Refusal, Frame, FirstAnswer;
    RefusalReads(q, more);
    var a := FirstAnswer(Refusal(q) + more);
    if !a.plus {
      SendsAtLeastOnce(p, a.rest);
    }
  }

  lemma SendsAtLeastOnce(p: Bytes, inp: Bytes)
    ensures PutPacket(p, inp).out != []
  {
    hide FirstAnswer;
    assert Frame(p) != [];
  }

  // ---------------------------------------------------------------------------
  // Memory and registers as text

  function Mem2Hex(m: Bytes): Bytes
    decreases |m|
  {
    if m == [] then [] else TwoDigits(m[0]) + Mem2Hex(m[1..])
  }

  /** The stub's test for digits lets every letter pass. */
  predicate IsHexDigit(c: Byte) {
    97 <= c <= 122 || 65 <= c <= 90 || 48 <= c <= 57
  }

  predicate StartsWithPair(text: Bytes) {
    |text| >= 2 && IsHexDigit(text[0]) && IsHexDigit(text[1])
  }

  datatype Decoded = Decoded(bytes: Bytes, rest: Bytes)

  /** Decodes up to n bytes, as far as there are pairs of digits. */
  function SafeHex2Mem(text: Bytes, n: nat): (d: Decoded)
    ensures |d.bytes| <= n
    ensures |d.bytes| < n ==> !StartsWithPair(d.rest)
    decreases n
  {
    if n == 0 || !StartsWithPair(text) then Decoded([], text)
    else
      var d := SafeHex2Mem(text[2..], n - 1);
      Decoded([HexPair(text[0], text[1])] + d.bytes, d.rest)
  }

  /** Text that writes the bytes, two characters each. */
  predicate Spelled(text: Bytes, m: Bytes)
    decreases |m|
  {
    if m == [] then text == []
    else |text| >= 2 && Spells(text[0], text[1], m[0]) && Spelled(text[2..], m[1..])
  }

  lemma {:induction false} SpelledLength(text: Bytes, m: Bytes)
    requires Spelled(text, m)
    ensures |text| == 2 * |m|
    decreases |m|
  {
    if m != [] {
      SpelledLength(text[2..], m[1..]);
    }
  }

  lemma PairDecodes(c1: Byte, c2: Byte, b: Byte, tail: Bytes, n: nat)
    requires n > 0 && Spells(c1, c2, b)
    ensures SafeHex2Mem([c1, c2] + tail, n) ==
            Decoded([b] + SafeHex2Mem(tail, n - 1).bytes, SafeHex2Mem(tail, n - 1).rest)
  {
    hide HexPair, IsHexDigit;
    SpellsReads(c1, c2, b);
    assert ([c1, c2] + tail)[2..] == tail;
  }

  lemma FirstThenRest(m: Bytes, n: nat)
    requires m != [] && n > 0
    ensures n <= |m| ==> [m[0]] + m[1..][..n - 1] == m[..n] && m[1..][n - 1..] == m[n..]
    ensures [m[0]] + m[1..] == m
  {
  }

  lemma MorePairs(text: Bytes, rest: Bytes)
    requires |text| >= 2
    ensures text + rest == [text[0], text[1]] + (text[2..] + rest)
  {
  }

  /** Text that writes bytes, in small or capital digits, is decoded to them, for all there are up
      to n. */
  lemma {:induction false} SpelledDecodes(text: Bytes, m: Bytes, rest: Bytes, n: nat)
    requires Spelled(text, m) && (n <= |m| || !StartsWithPair(rest))
    ensures |text| == 2 * |m|
    ensures SafeHex2Mem(text + rest, n) == if n <= |m| then Decoded(m[..n], text[2 * n..] + rest) else Decoded(m, rest)
    decreases |m|
  {
    hide Spells, StartsWithPair;
    SpelledLength(text, m);
    if m == [] {
      assert text + rest == rest;
    } else if n > 0 {
      MorePairs(text, rest);
      PairDecodes(text[0], text[1], m[0], text[2..] + rest, n);
      hide SafeHex2Mem;
      SpelledDecodes(text[2..], m[1..], rest, n - 1);
      FirstThenRest(m, n);
      if n <= |m| {
        LaterPairs(text, m, n);
      }
    } else {
      assert m[..0] == [] && text[0..] == text;
    }
  }

  lemma {:induction false} Mem2HexSpells(m: Bytes)
    ensures Spelled(Mem2Hex(m), m)
    decreases |m|
  {
    hide Spells, TwoDigits;
    if m != [] {
      var ds, tail := TwoDigits(m[0]), Mem2Hex(m[1..]);
      DigitsSpell(m[0]);
      assert Mem2Hex(m)[0] == ds[0] && Mem2Hex(m)[1] == ds[1] && Mem2Hex(m)[2..] == tail;
      Mem2HexSpells(m[1..]);
    }
  }

  lemma DigitsSpell(b: Byte)
    ensures Spells(TwoDigits(b)[0], TwoDigits(b)[1], b)
  {
    WritesSmallDigits(b);
    hide TwoDigits;
  }

  lemma {:induction false} Mem2HexFrom(m: Bytes, n: nat)
    requires n <= |m|
    ensures |Mem2Hex(m)| == 2 * |m| && Mem2Hex(m)[2 * n..] == Mem2Hex(m[n..])
    decreases |m|
  {
    hide TwoDigits;
    Mem2HexSpells(m);
    SpelledLength(Mem2Hex(m), m);
    if n == 0 {
      assert m[0..] == m;
    } else {
      Mem2HexFrom(m[1..], n - 1);
      assert m[1..][n - 1..] == m[n..];
      assert Mem2Hex(m)[2 * n..] == Mem2Hex(m[1..])[2 * (n - 1)..];
    }
  }

  /** Decoding undoes encoding, for all the bytes there are up to n. */
  lemma HexRoundTrip(m: Bytes, rest: Bytes, n: nat)
    requires n <= |m| || !StartsWithPair(rest)
    ensures SafeHex2Mem(Mem2Hex(m) + rest, n) ==
            if n <= |m| then Decoded(m[..n], Mem2Hex(m[n..]) + rest) else Decoded(m, rest)
  {
    hide SafeHex2Mem, Spelled, Mem2Hex, StartsWithPair;
    Mem2HexSpells(m);
    SpelledDecodes(Mem2Hex(m), m, rest, n);
    if n <= |m| {
      Mem2HexFrom(m, n);
    }
  }

  /** The letters from g on pass the test for digits, and decode to a byte of ones. */
  lemma LettersDecode(c1: Byte, c2: Byte, rest: Bytes)
    requires 103 <= c1 <= 122 || 71 <= c1 <= 90
    requires 103 <= c2 <= 122 || 71 <= c2 <= 90
    ensures SafeHex2Mem([c1, c2] + rest, 1) == Decoded([255], rest)
  {
    assert ([c1, c2] + rest)[2..] == rest;
    assert SafeHex2Mem(rest, 0) == Decoded([], rest);
  }

  /** Anything else ends the text. */
  lemma OthersEndText(c1: Byte, c2: Byte, rest: Bytes, n: nat)
    requires c1 < 48 || 57 < c1 < 65 || 90 < c1 < 97 || 122 < c1 || c2 < 48 || 57 < c2 < 65 || 90 < c2 < 97 || 122 < c2
    ensures SafeHex2Mem([c1, c2] + rest, n) == Decoded([], [c1, c2] + rest)
  {
  }

  lemma {:induction false} Mem2HexAppends(m: Bytes, m': Bytes)
    ensures Mem2Hex(m + m') == Mem2Hex(m) + Mem2Hex(m')
    decreases |m|
  {
    hide TwoDigits;
    if m == [] {
      assert m + m' == m';
    } else {
      assert (m + m')[1..] == m[1..] + m';
      Mem2HexAppends(m[1..], m');
    }
  }

  /** The saved registers in their six blocks: general, status to EPC, floating-point, its control
      registers, the frame pointer with padding, and the rest of coprocessor 0. */
  const BLOCKS: seq<nat> := [128, 24, 128, 8, 8, 64]
  const REGISTER_BYTES := 360

  function Total(blocks: seq<nat>): nat {
    if blocks == [] then 0 else blocks[0] + Total(blocks[1..])
  }

  /** The text of the registers, block by block. */
  function RegisterText(regs: Bytes, blocks: seq<nat>): Bytes
    requires |regs| == Total(blocks)
    decreases |blocks|
  {
    if blocks == [] then [] else Mem2Hex(regs[..blocks[0]]) + RegisterText(regs[blocks[0]..], blocks[1..])
  }

  /** The registers after each block has been decoded over, as far as the text goes. */
  function SetRegisters(regs: Bytes, text: Bytes, blocks: seq<nat>): (r: Bytes)
    requires |regs| == Total(blocks)
    ensures |r| == |regs|
    decreases |blocks|
  {
    if blocks == [] then []
    else
      var d := SafeHex2Mem(text, blocks[0]);
      d.bytes + regs[|d.bytes|..blocks[0]] + SetRegisters(regs[blocks[0]..], d.rest, blocks[1..])
  }

  lemma {:induction false} RegisterTextIs(regs: Bytes, blocks: seq<nat>)
    requires |regs| == Total(blocks)
    ensures RegisterText(regs, blocks) == Mem2Hex(regs)
    decreases |blocks|
  {
    if blocks != [] {
      RegisterTextIs(regs[blocks[0]..], blocks[1..]);
      Mem2HexAppends(regs[..blocks[0]], regs[blocks[0]..]);
      assert regs[..blocks[0]] + regs[blocks[0]..] == regs;
    }
  }

  lemma BlockSet(regs: Bytes, text: Bytes, blocks: seq<nat>, bytes: Bytes, rest: Bytes)
    requires blocks != [] && |regs| == Total(blocks) && SafeHex2Mem(text, blocks[0]) == Decoded(bytes, rest)
    ensures SetRegisters(regs, text, blocks) ==
            bytes + regs[|bytes|..blocks[0]] + SetRegisters(regs[blocks[0]..], rest, blocks[1..])
  {
    hide SafeHex2Mem;
  }

  /** Text for the first bytes of the registers, in small or capital digits, sets just these. */
  lemma {:induction false} SetsSpelled(regs: Bytes, text: Bytes, v: Bytes, rest: Bytes, blocks: seq<nat>)
    requires Spelled(text, v) && |v| <= |regs| == Total(blocks) && !StartsWithPair(rest)
    ensures SetRegisters(regs, text + rest, blocks) == v + regs[|v|..]
    decreases |blocks|
  {
    if blocks == [] {
      assert v == [] && regs == [];
    } else {
      hide SafeHex2Mem, StartsWithPair, SetRegisters, Spelled;
      var n := blocks[0];
      SpelledDecodes(text, v, rest, n);
      if n <= |v| {
        BlockSet(regs, text + rest, blocks, v[..n], text[2 * n..] + rest);
        SpelledFrom(text, v, n);
        SetsSpelled(regs[n..], text[2 * n..], v[n..], rest, blocks[1..]);
        FullBlock(regs, v, n);
      } else {
        BlockSet(regs, text + rest, blocks, v, rest);
        NothingSpelled();
        SetsSpelled(regs[n..], [], [], rest, blocks[1..]);
        assert [] + rest == rest;
        LastBlock(regs, v, n);
      }
    }
  }

  lemma NothingSpelled()
    ensures Spelled([], [])
  {
  }

  lemma {:induction false} SpelledFrom(text: Bytes, m: Bytes, n: nat)
    requires Spelled(text, m) && n <= |m| && |text| == 2 * |m|
    ensures Spelled(text[2 * n..], m[n..])
    decreases |m|
  {
    hide Spells;
    if n == 0 {
      assert text[0..] == text && m[0..] == m;
    } else {
      SpelledFrom(text[2..], m[1..], n - 1);
      LaterPairs(text, m, n);
    }
  }

  lemma LaterPairs(text: Bytes, m: Bytes, n: nat)
    requires 0 < n <= |m| && |text| == 2 * |m|
    ensures text[2..][2 * (n - 1)..] == text[2 * n..] && m[1..][n - 1..] == m[n..]
  {
  }

  /** In particular the text the stub itself writes. */
  lemma SetsPrefix(regs: Bytes, v: Bytes, rest: Bytes, blocks: seq<nat>)
    requires |v| <= |regs| == Total(blocks) && !StartsWithPair(rest)
    ensures SetRegisters(regs, Mem2Hex(v) + rest, blocks) == v + regs[|v|..]
  {
    hide Spelled, SetRegisters, Mem2Hex, StartsWithPair;
    Mem2HexSpells(v);
    SetsSpelled(regs, Mem2Hex(v), v, rest, blocks);
  }

  lemma FullBlock(regs: Bytes, v: Bytes, n: nat)
    requires n <= |v| <= |regs|
    ensures v[..n] + regs[n..n] + (v[n..] + regs[n..][|v[n..]|..]) == v + regs[|v|..]
  {
  }

  lemma LastBlock(regs: Bytes, v: Bytes, n: nat)
    requires |v| <= n <= |regs|
    ensures v + regs[|v|..n] + ([] + regs[n..][0..]) == v + regs[|v|..]
  {
  }

  lemma {:induction false} Mem2HexLength(m: Bytes)
    ensures |Mem2Hex(m)| == 2 * |m| && Without(Mem2Hex(m), HASH)
    decreases |m|
  {
    if m != [] {
      Mem2HexLength(m[1..]);
      assert Without(TwoDigits(m[0]), HASH);
      hide TwoDigits;
    }
  }

  /** The registers as they were reported, sent back in a packet, are restored: all 360 bytes. */
  lemma RegistersRestored(noise: Bytes, regs: Bytes, now: Bytes, rest: Bytes)
    requires Without(noise, DOLLAR) && |regs| == |now| == REGISTER_BYTES
    ensures Total(BLOCKS) == REGISTER_BYTES
    ensures var packet := [SET_REGISTERS] + RegisterText(regs, BLOCKS);
            GetPacket(noise + Frame(packet) + rest) == Packet(packet, rest, [PLUS]) &&
            SetRegisters(now, packet[1..], BLOCKS) == regs
  {
    hide GetPacket, Frame, RegisterText, SetRegisters, Mem2Hex, Total;
    BlocksTotal();
    var text := RegisterText(regs, BLOCKS);
    RegisterTextIs(regs, BLOCKS);
    Mem2HexLength(regs);
    var packet := [SET_REGISTERS] + text;
    PacketRoundTrip(noise, packet, rest);
    assert packet[1..] == text && text + [] == text;
    SetsPrefix(now, regs, [], BLOCKS);
    assert regs + now[|regs|..] == regs;
  }

  lemma BlocksTotal()
    ensures Total(BLOCKS) == REGISTER_BYTES
  {
    assert BLOCKS[1..] == [24, 128, 8, 8, 64];
    assert BLOCKS[1..][1..] == [128, 8, 8, 64];
    assert BLOCKS[1..][1..][1..] == [8, 8, 64];
    assert BLOCKS[1..][1..][1..][1..] == [8, 64];
    assert BLOCKS[1..][1..][1..][1..][1..] == [64];
    assert [64][1..] == [] && Total([64]) == 64;
  }
}
