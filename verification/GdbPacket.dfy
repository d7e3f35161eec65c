/** Packets of the GDB remote protocol, and how the stub reads them from the serial port. */
module GdbPacket {
  import opened Wrappers
  import opened Bits
  import opened Memory
  import opened GdbHex

  const BUFFER_SIZE: nat := 0x10_0000
  const DOLLAR: Byte := 0x24
  const HASH: Byte := 0x23
  const PLUS: Byte := 0x2B
  const MINUS: Byte := 0x2D
  const COLON: Byte := 0x3A

  function Sum(bytes: seq<Byte>): Byte
  {
    if bytes == [] then 0 else (Sum(bytes[..|bytes| - 1]) + bytes[|bytes| - 1]) % 256
  }

  /** A packet as the protocol has it. */
  function Frame(payload: seq<Byte>): seq<Byte>
  {
    [DOLLAR] + payload + [HASH, HexChar(Sum(payload) / 16), HexChar(Sum(payload) % 16)]
  }

  /** The checksum adds the bytes up modulo 256. */
  lemma {:induction false} SumAdds(a: seq<Byte>, b: seq<Byte>)
    ensures Sum(a + b) == (Sum(a) + Sum(b)) % 256
    ensures |b| == 1 ==> Sum(b) == b[0]
    decreases |b|
  {
    if b == [] {
      assert a + b == a;
    } else {
      var first, last := b[..|b| - 1], b[|b| - 1];
      SumAdds(a, first);
      assert (a + b)[..|a + b| - 1] == a + first;
      AddedTwice(Sum(a), Sum(first), last);
    }
  }

  lemma AddedTwice(a: Byte, b: Byte, c: Byte)
    ensures ((a + b) % 256 + c) % 256 == (a + (b + c) % 256) % 256
  {
  }

  /** `$OK#9a`, the answer of the stub to most requests. */
  lemma FrameOfOK()
    ensures Frame([0x4F, 0x4B]) == [0x24, 0x4F, 0x4B, 0x23, 0x39, 0x61]
  {
    SumAdds([], [0x4F]);
    SumAdds([0x4F], [0x4B]);
    assert [0x4F] + [0x4B] == [0x4F, 0x4B] && [] + [0x4F] == [0x4F];
  }

  predicate Plain(bytes: seq<Byte>) { DOLLAR !in bytes && HASH !in bytes }

  // ----- The reader, byte by byte

  /** What the reader waits for; `offset` is where in the buffer the packet it returned begins. */
  datatype Phase =
    | Waiting
    | InBody(count: nat, sum: Byte)
    | HighDigit(sum: Byte)
    | LowDigit(sum: Byte, high: Byte)
    | Returned(offset: nat)

  /** The input buffer with the byte behind it, and what has been sent. */
  datatype Reader = Reader(buffer: seq<Byte>, noAck: bool, phase: Phase, sent: seq<Byte>) {
    predicate Valid() { |buffer| == BUFFER_SIZE + 1 && (phase.InBody? ==> phase.count < BUFFER_SIZE) }

    function Reply(bytes: seq<Byte>): Reader { if noAck then this else this.(sent := sent + bytes) }

    /** A `:` in the third place of the buffer is taken for the end of a sequence number, which is echoed. */
    function Accept(): Reader
      requires Valid()
    {
      var r := Reply([PLUS]);
      if buffer[2] == COLON then r.(sent := r.sent + buffer[..2], phase := Returned(3)) else r.(phase := Returned(0))
    }
  }

  function Feed(r: Reader, b: Byte): (n: Reader)
    requires r.Valid()
    ensures n.Valid()
  {
    match r.phase
    case Waiting => if b == DOLLAR then r.(phase := InBody(0, 0)) else r
    case InBody(count, sum) =>
      if b == DOLLAR then r.(phase := InBody(0, 0))
      else if b == HASH then r.(buffer := r.buffer[count := 0], phase := HighDigit(sum))
      else if count + 1 < BUFFER_SIZE then
        r.(buffer := r.buffer[count := b], phase := InBody(count + 1, (sum + b) % 256))
      else r.(buffer := r.buffer[count := b][count + 1 := 0], phase := Waiting)
    case HighDigit(sum) => r.(phase := LowDigit(sum, HexToByte(b) * 16 % 256))
    case LowDigit(sum, high) =>
      if sum != (high + HexToByte(b)) % 256 then r.Reply([MINUS]).(phase := Waiting) else r.Accept()
    case Returned(_) => r
  }

  /** The reader after all of these bytes; it looks at none after it returned. */
  function FeedAll(r: Reader, bytes: seq<Byte>): (n: Reader)
    requires r.Valid()
    ensures n.Valid()
    decreases bytes
  {
    if bytes == [] then r else FeedAll(Feed(r, bytes[0]), bytes[1..])
  }

  lemma {:induction false} FeedConcat(r: Reader, a: seq<Byte>, b: seq<Byte>)
    requires r.Valid()
    ensures FeedAll(r, a + b) == FeedAll(FeedAll(r, a), b)
    decreases a
  {
    if a == [] {
      assert a + b == b;
    } else {
      FeedConcat(Feed(r, a[0]), a[1..], b);
      assert (a + b)[1..] == a[1..] + b;
    }
  }

  lemma {:induction false} FeedNoise(r: Reader, noise: seq<Byte>)
    requires r.Valid() && r.phase.Waiting? && DOLLAR !in noise
    ensures FeedAll(r, noise) == r
    decreases noise
  {
    if noise != [] {
      FeedNoise(r, noise[1..]);
    }
  }

  lemma FeedOne(r: Reader, done: seq<Byte>, b: Byte, buffer: seq<Byte>)
    requires r.Valid() && r.phase == InBody(|done|, Sum(done)) && b != DOLLAR && b != HASH
    requires |done| + 1 < BUFFER_SIZE && |buffer| == BUFFER_SIZE + 1 && r.buffer == Splice(buffer, 0, done)
    ensures Feed(r, b) == r.(buffer := Splice(buffer, 0, done + [b]), phase := InBody(|done| + 1, Sum(done + [b])))
  {
    assert (done + [b])[..|done|] == done;
    AppendOne(buffer, done, b);
  }

  /** A body that fits is stored as it is. */
  lemma {:induction false} FeedBody(r: Reader, done: seq<Byte>, body: seq<Byte>, buffer: seq<Byte>)
    requires r.Valid() && r.phase == InBody(|done|, Sum(done)) && Plain(body)
    requires |done| + |body| < BUFFER_SIZE && |buffer| == BUFFER_SIZE + 1 && r.buffer == Splice(buffer, 0, done)
    ensures FeedAll(r, body) == r.(buffer := Splice(buffer, 0, done + body), phase := InBody(|done + body|, Sum(done + body)))
    decreases body
  {
    if body == [] {
      assert done + body == done;
    } else {
      var b, rest := body[0], body[1..];
      assert b in body;
      FeedOne(r, done, b, buffer);
      var next := Feed(r, b);
      var done' := done + [b];
      FeedBody(next, done', rest, buffer);
      assert done' + rest == done + body;
    }
  }

  /** `$` begins a body, from anywhere but the digits of a checksum. */
  lemma FeedDollar(r: Reader)
    requires r.Valid() && (r.phase.Waiting? || r.phase.InBody?)
    ensures FeedAll(r, [DOLLAR]) == r.(phase := InBody(0, 0))
  {
  }

  /** A body with its `$`. */
  lemma FeedStart(r: Reader, body: seq<Byte>)
    requires r.Valid() && (r.phase.Waiting? || r.phase.InBody?) && Plain(body) && |body| < BUFFER_SIZE
    ensures FeedAll(r, [DOLLAR] + body) == r.(buffer := Splice(r.buffer, 0, body), phase := InBody(|body|, Sum(body)))
  {
    FeedConcat(r, [DOLLAR], body);
    FeedDollar(r);
    assert Splice(r.buffer, 0, []) == r.buffer;
    FeedBody(r.(phase := InBody(0, 0)), [], body, r.buffer);
    assert [] + body == body;
  }

  lemma FeedLast(r: Reader, bytes: seq<Byte>, b: Byte)
    requires r.Valid()
    ensures FeedAll(r, bytes + [b]) == Feed(FeedAll(r, bytes), b)
  {
    FeedConcat(r, bytes, [b]);
    assert FeedAll(FeedAll(r, bytes), [b]) == FeedAll(Feed(FeedAll(r, bytes), b), []);
  }

  lemma FeedThree(r: Reader, a: Byte, b: Byte, c: Byte)
    requires r.Valid()
    ensures FeedAll(r, [a, b, c]) == Feed(Feed(Feed(r, a), b), c)
  {
    FeedLast(r, [], a);
    FeedLast(r, [a], b);
    FeedLast(r, [a, b], c);
    assert [] + [a] == [a] && [a] + [b] == [a, b] && [a, b] + [c] == [a, b, c];
  }

  lemma PairInTwoSteps(high: Byte, low: Byte)
    ensures (HexToByte(high) * 16 % 256 + HexToByte(low)) % 256 == Pair(high, low)
  {
  }

  /** The end of a frame, with any two bytes for the checksum. */
  lemma FeedEnd(r: Reader, count: nat, sum: Byte, high: Byte, low: Byte)
    requires r.Valid() && r.phase == InBody(count, sum)
    ensures var ended := r.(buffer := r.buffer[count := 0], phase := Waiting);
      FeedAll(r, [HASH, high, low]) == if sum == Pair(high, low) then ended.Accept() else ended.Reply([MINUS])
  {
    FeedThree(r, HASH, high, low);
    var waiting := r.(buffer := r.buffer[count := 0], phase := HighDigit(sum));
    assert Feed(r, HASH) == waiting;
    FeedDigits(waiting, sum, high, low);
  }

  lemma FeedDigits(r: Reader, sum: Byte, high: Byte, low: Byte)
    requires r.Valid() && r.phase == HighDigit(sum)
    ensures var ended := r.(phase := Waiting);
      Feed(Feed(r, high), low) == if sum == Pair(high, low) then ended.Accept() else ended.Reply([MINUS])
  {
    var h := HexToByte(high) * 16 % 256;
    assert Feed(r, high) == r.(phase := LowDigit(sum, h));
    PairInTwoSteps(high, low);
  }

  /** The buffer after a body and its NUL. */
  function Stored(buffer: seq<Byte>, body: seq<Byte>): (r: seq<Byte>)
    requires |body| < |buffer|
    ensures |r| == |buffer|
  {
    Splice(buffer, 0, body + [0])
  }

  /** A whole frame that fits the buffer. */
  lemma FeedFrame(r: Reader, body: seq<Byte>, high: Byte, low: Byte)
    requires r.Valid() && (r.phase.Waiting? || r.phase.InBody?) && Plain(body) && |body| < BUFFER_SIZE
    ensures var ended := r.(buffer := Stored(r.buffer, body), phase := Waiting);
      FeedAll(r, [DOLLAR] + body + [HASH, high, low])
      == if Sum(body) == Pair(high, low) then ended.Accept() else ended.Reply([MINUS])
  {
    FeedConcat(r, [DOLLAR] + body, [HASH, high, low]);
    FeedStart(r, body);
    var r1 := r.(buffer := Splice(r.buffer, 0, body), phase := InBody(|body|, Sum(body)));
    AppendOne(r.buffer, body, 0);
    FeedEnd(r1, |body|, Sum(body), high, low);
  }

  /**
   What a frame is answered, unless acknowledgements are off: `+` if the last two
   bytes are the digits of the sum, and else `-`. Then come the first two places
   if a `:` is in the third.
   */
  lemma FrameAnswered(r: Reader, body: seq<Byte>, high: Byte, low: Byte)
    requires r.Valid() && r.phase.Waiting? && Plain(body) && |body| < BUFFER_SIZE
    ensures var end := FeedAll(r, [0x24] + body + [0x23, high, low]);
      var same := Sum(body) == (16 * HexToByte(high) + HexToByte(low)) % 256;
      && end.sent == r.sent + (if r.noAck then [] else if same then [0x2B] else [0x2D])
                     + (if same && end.buffer[2] == 0x3A then end.buffer[..2] else [])
      && end.phase == (if !same then Waiting else Returned(if end.buffer[2] == 0x3A then 3 else 0))
      && end.buffer[..|body|] == body && end.buffer[|body|] == 0 && end.buffer[|body| + 1..] == r.buffer[|body| + 1..]
  {
    FeedFrame(r, body, high, low);
    var ended := r.(buffer := Stored(r.buffer, body), phase := Waiting);
    AnswerSent(ended);
    StoredParts(r.buffer, body);
    SameSum(high, low);
  }

  lemma SameSum(high: Byte, low: Byte)
    ensures Pair(high, low) == (16 * HexToByte(high) + HexToByte(low)) % 256
  {
  }

  lemma StoredParts(buffer: seq<Byte>, body: seq<Byte>)
    requires |body| < |buffer|
    ensures var stored := Stored(buffer, body);
      stored[..|body|] == body && stored[|body|] == 0 && stored[|body| + 1..] == buffer[|body| + 1..]
  {
  }

  lemma AnswerSent(r: Reader)
    requires r.Valid()
    ensures r.Accept().sent == r.sent + (if r.noAck then [] else [0x2B]) + if r.buffer[2] == 0x3A then r.buffer[..2] else []
    ensures r.Reply([MINUS]).sent == r.sent + (if r.noAck then [] else [0x2D]) + []
  {
    assert r.sent + [] == r.sent && r.sent + [0x2B] + [] == r.sent + [0x2B] && r.sent + [0x2D] + [] == r.sent + [0x2D];
  }

  /** The buffer after a body that fills it, with the NUL behind it. */
  function Filled(buffer: seq<Byte>, body: seq<Byte>): (r: seq<Byte>)
    requires |body| >= BUFFER_SIZE && |buffer| == BUFFER_SIZE + 1
    ensures |r| == |buffer| && r[BUFFER_SIZE] == 0
  {
    body[..BUFFER_SIZE] + [0]
  }

  lemma FillLast(buffer: seq<Byte>, body: seq<Byte>)
    requires |body| >= BUFFER_SIZE && |buffer| == BUFFER_SIZE + 1
    ensures Splice(buffer, 0, body[..BUFFER_SIZE - 1])[BUFFER_SIZE - 1 := body[BUFFER_SIZE - 1]][BUFFER_SIZE := 0]
         == Filled(buffer, body)
  {
  }

  lemma PlainParts(a: seq<Byte>, b: seq<Byte>)
    requires Plain(a + b)
    ensures Plain(a) && Plain(b)
  {
    assert forall x :: x in a || x in b ==> x in a + b;
  }

  /** The byte that fills the buffer ends the body. */
  lemma FeedUntilFull(r: Reader, start: seq<Byte>, last: Byte)
    requires r.Valid() && (r.phase.Waiting? || r.phase.InBody?) && Plain(start + [last]) && |start| == BUFFER_SIZE - 1
    ensures FeedAll(r, [DOLLAR] + start + [last]) == r.(buffer := Filled(r.buffer, start + [last]), phase := Waiting)
  {
    PlainParts(start, [last]);
    FeedStart(r, start);
    FeedLast(r, [DOLLAR] + start, last);
    assert last in [last];
    FillLast(r.buffer, start + [last]);
    assert (start + [last])[..BUFFER_SIZE - 1] == start;
  }

  lemma FeedPastFull(r: Reader, start: seq<Byte>, last: Byte, rest: seq<Byte>)
    requires r.Valid() && (r.phase.Waiting? || r.phase.InBody?) && |start| == BUFFER_SIZE - 1
    requires Plain(start + [last]) && DOLLAR !in rest
    ensures FeedAll(r, ([DOLLAR] + start + [last]) + rest) == r.(buffer := Filled(r.buffer, start + [last]), phase := Waiting)
  {
    FeedUntilFull(r, start, last);
    FeedConcat(r, [DOLLAR] + start + [last], rest);
    FeedNoise(r.(buffer := Filled(r.buffer, start + [last]), phase := Waiting), rest);
  }

  lemma SplitWhenFull(body: seq<Byte>) returns (start: seq<Byte>, last: Byte, rest: seq<Byte>)
    requires Plain(body) && |body| >= BUFFER_SIZE
    ensures |start| == BUFFER_SIZE - 1 && Plain(start + [last]) && DOLLAR !in rest
    ensures start + [last] == body[..BUFFER_SIZE]
    ensures ([DOLLAR] + start + [last]) + rest == [DOLLAR] + body
  {
    start, last, rest := body[..BUFFER_SIZE - 1], body[BUFFER_SIZE - 1], body[BUFFER_SIZE..];
    assert body == (start + [last]) + rest;
    PlainParts(start + [last], rest);
  }

  /** A body that is too long fills the buffer, and the reader waits for the next `$`. */
  lemma FeedTooLong(r: Reader, body: seq<Byte>)
    requires r.Valid() && (r.phase.Waiting? || r.phase.InBody?) && Plain(body) && |body| >= BUFFER_SIZE
    ensures FeedAll(r, [DOLLAR] + body) == r.(buffer := Filled(r.buffer, body), phase := Waiting)
  {
    var start, last, rest := SplitWhenFull(body);
    FeedPastFull(r, start, last, rest);
    var full := start + [last];
    assert full[..BUFFER_SIZE] == full;
  }

  // ----- What may come before a packet

  datatype Junk =
    | Noise(bytes: seq<Byte>)
    | Aborted(body: seq<Byte>)
    | Rejected(body: seq<Byte>, high: Byte, low: Byte)
    | Overlong(body: seq<Byte>)
  {
    /** Bytes without `$`; a frame that a new one cuts short; a frame with a wrong checksum; one that fills the buffer. */
    predicate WellFormed()
    {
      match this
      case Noise(bytes) => DOLLAR !in bytes
      case Aborted(body) => Plain(body) && |body| < BUFFER_SIZE
      case Rejected(body, high, low) => Plain(body) && |body| < BUFFER_SIZE && Sum(body) != Pair(high, low)
      case Overlong(body) => Plain(body) && |body| >= BUFFER_SIZE
    }

    function Bytes(): seq<Byte>
    {
      match this
      case Noise(bytes) => bytes
      case Aborted(body) => [DOLLAR] + body
      case Rejected(body, high, low) => [DOLLAR] + body + [HASH, high, low]
      case Overlong(body) => [DOLLAR] + body
    }

    /** What is left of it in the reader. */
    function After(r: Reader): (n: Reader)
      requires WellFormed() && r.Valid()
      ensures n.Valid() && n.noAck == r.noAck
    {
      match this
      case Noise(_) => r
      case Aborted(body) => r.(buffer := Splice(r.buffer, 0, body), phase := InBody(|body|, Sum(body)))
      case Rejected(body, _, _) => r.(buffer := Stored(r.buffer, body), phase := Waiting).Reply([MINUS])
      case Overlong(body) => r.(buffer := Filled(r.buffer, body), phase := Waiting)
    }
  }

  /** What follows a frame that was cut short begins with `$`. */
  predicate AllWellFormed(junk: seq<Junk>, inBody: bool)
  {
    junk == [] ||
    (junk[0].WellFormed() && (inBody ==> !junk[0].Noise?) && AllWellFormed(junk[1..], if junk[0].Noise? then inBody else junk[0].Aborted?))
  }

  function AllBytes(junk: seq<Junk>): seq<Byte>
  {
    if junk == [] then [] else junk[0].Bytes() + AllBytes(junk[1..])
  }

  function AfterAll(r: Reader, junk: seq<Junk>): (n: Reader)
    requires r.Valid() && AllWellFormed(junk, r.phase.InBody?) && (r.phase.Waiting? || r.phase.InBody?)
    ensures n.Valid() && (n.phase.Waiting? || n.phase.InBody?) && n.noAck == r.noAck
    decreases junk
  {
    if junk == [] then r else AfterAll(junk[0].After(r), junk[1..])
  }

  lemma FeedJunk(r: Reader, j: Junk)
    requires r.Valid() && j.WellFormed() && (r.phase.Waiting? || (r.phase.InBody? && !j.Noise?))
    ensures FeedAll(r, j.Bytes()) == j.After(r)
  {
    match j
    case Noise(bytes) => FeedNoise(r, bytes);
    case Aborted(body) => FeedStart(r, body);
    case Rejected(body, high, low) => FeedFrame(r, body, high, low);
    case Overlong(body) => FeedTooLong(r, body);
  }

  lemma {:induction false} FeedAllJunk(r: Reader, junk: seq<Junk>)
    requires r.Valid() && AllWellFormed(junk, r.phase.InBody?) && (r.phase.Waiting? || r.phase.InBody?)
    ensures FeedAll(r, AllBytes(junk)) == AfterAll(r, junk)
    decreases junk
  {
    if junk != [] {
      FeedConcat(r, junk[0].Bytes(), AllBytes(junk[1..]));
      FeedJunk(r, junk[0]);
      FeedAllJunk(junk[0].After(r), junk[1..]);
    }
  }

  // ----- Packets

  /** The string that begins at an offset of the buffer. */
  function StringAt(buffer: seq<Byte>, offset: nat): seq<Byte>
    requires offset <= |buffer|
    decreases |buffer| - offset
  {
    if offset == |buffer| || buffer[offset] == 0 then [] else [buffer[offset]] + StringAt(buffer, offset + 1)
  }

  lemma {:induction false} StringOf(buffer: seq<Byte>, payload: seq<Byte>, offset: nat)
    requires |payload| < |buffer| && 0 !in payload && offset <= |payload|
    ensures StringAt(Stored(buffer, payload), offset) == payload[offset..]
    decreases |payload| - offset
  {
    var stored := Stored(buffer, payload);
    assert stored[|payload|] == 0;
    if offset < |payload| {
      assert stored[offset] == payload[offset] && payload[offset] in payload;
      StringOf(buffer, payload, offset + 1);
      assert payload[offset..] == [payload[offset]] + payload[offset + 1..];
    }
  }

  /** Whether the third place of the buffer is a `:` once the payload is in it. */
  predicate ColonThird(buffer: seq<Byte>, payload: seq<Byte>)
    requires |buffer| == BUFFER_SIZE + 1
  {
    if |payload| < 2 then buffer[2] == COLON else |payload| > 2 && payload[2] == COLON
  }

  lemma HexIsPair(payload: seq<Byte>)
    ensures Pair(HexChar(Sum(payload) / 16), HexChar(Sum(payload) % 16)) == Sum(payload)
  {
    DigitRoundTrip(Sum(payload) / 16);
    DigitRoundTrip(Sum(payload) % 16);
  }

  /** The packet that was returned. */
  function Packet(r: Reader): seq<Byte>
    requires r.phase.Returned? && r.phase.offset <= |r.buffer|
  {
    StringAt(r.buffer, r.phase.offset)
  }

  lemma {:induction false} SameString(a: seq<Byte>, b: seq<Byte>, offset: nat)
    requires offset <= |a| == |b| && a[offset..] == b[offset..]
    ensures StringAt(a, offset) == StringAt(b, offset)
    decreases |a| - offset
  {
    if offset < |a| {
      assert a[offset] == a[offset..][0] && b[offset] == b[offset..][0];
      assert a[offset + 1..] == a[offset..][1..] && b[offset + 1..] == b[offset..][1..];
      SameString(a, b, offset + 1);
    }
  }

  /** The string behind the third place once the payload is in the buffer. */
  lemma StringAfterColon(buffer: seq<Byte>, payload: seq<Byte>)
    requires |buffer| == BUFFER_SIZE + 1 && 0 !in payload && |payload| < BUFFER_SIZE && ColonThird(buffer, payload)
    ensures StringAt(Stored(buffer, payload), 3) == if |payload| < 2 then StringAt(buffer, 3) else payload[3..]
  {
    if |payload| < 2 {
      SameString(Stored(buffer, payload), buffer, 3);
    } else {
      StringOf(buffer, payload, 3);
    }
  }

  lemma FeedPacket(r: Reader, junk: seq<Junk>, payload: seq<Byte>)
    requires r.Valid() && r.phase.Waiting? && AllWellFormed(junk, false)
    requires Plain(payload) && |payload| < BUFFER_SIZE
    ensures var before := AfterAll(r, junk);
      FeedAll(r, AllBytes(junk) + Frame(payload)) == before.(buffer := Stored(before.buffer, payload), phase := Waiting).Accept()
  {
    FeedConcat(r, AllBytes(junk), Frame(payload));
    FeedAllJunk(r, junk);
    HexIsPair(payload);
    FeedFrame(AfterAll(r, junk), payload, HexChar(Sum(payload) / 16), HexChar(Sum(payload) % 16));
  }

  lemma HexCharsArePlain(payload: seq<Byte>)
    ensures DOLLAR !in [HASH, HexChar(Sum(payload) / 16), HexChar(Sum(payload) % 16)]
  {
  }

  lemma FeedTooLongFrame(r: Reader, junk: seq<Junk>, payload: seq<Byte>)
    requires r.Valid() && r.phase.Waiting? && AllWellFormed(junk, false)
    requires Plain(payload) && |payload| >= BUFFER_SIZE
    ensures var before := AfterAll(r, junk);
      FeedAll(r, AllBytes(junk) + Frame(payload)) == before.(buffer := Filled(before.buffer, payload), phase := Waiting)
  {
    var before := AfterAll(r, junk);
    var end := [HASH, HexChar(Sum(payload) / 16), HexChar(Sum(payload) % 16)];
    FeedConcat(r, AllBytes(junk), Frame(payload));
    FeedAllJunk(r, junk);
    FeedConcat(before, [DOLLAR] + payload, end);
    FeedTooLong(before, payload);
    HexCharsArePlain(payload);
    FeedNoise(before.(buffer := Filled(before.buffer, payload), phase := Waiting), end);
  }

  /**
   After any junk, a frame is accepted exactly if its payload is shorter than
   the buffer. One that is not gets no answer at all, fills the buffer, and
   the NUL goes to the place behind it.
   */
  lemma AcceptedIfShorter(r: Reader, junk: seq<Junk>, payload: seq<Byte>)
    requires r.Valid() && r.phase.Waiting? && AllWellFormed(junk, false) && Plain(payload)
    ensures var before := AfterAll(r, junk);
      var end := FeedAll(r, AllBytes(junk) + Frame(payload));
      && (end.phase.Returned? <==> |payload| < 0x10_0000)
      && (|payload| >= 0x10_0000 ==>
            end.phase == Waiting && end.sent == before.sent && end.buffer == payload[..0x10_0000] + [0])
  {
    if |payload| < BUFFER_SIZE {
      FeedPacket(r, junk, payload);
    } else {
      FeedTooLongFrame(r, junk, payload);
    }
  }

  /**
   What comes back of a frame that fits the buffer, after any junk. If the
   third place of the buffer is not a `:`, it is the payload; if it is, three
   places are skipped, and what follows them is returned, be it of this
   payload or, if this one does not get that far, of an earlier one. So the
   payload comes back exactly if there is no `:`, or an earlier packet left
   the same string behind its own.
   */
  lemma PacketRead(r: Reader, junk: seq<Junk>, payload: seq<Byte>)
    requires r.Valid() && r.phase.Waiting? && AllWellFormed(junk, false)
    requires Plain(payload) && 0 !in payload && |payload| < BUFFER_SIZE
    ensures var before := AfterAll(r, junk);
      var end := FeedAll(r, AllBytes(junk) + Frame(payload));
      var colon := ColonThird(before.buffer, payload);
      && end.phase == Returned(if colon then 3 else 0)
      && Packet(end) == (if !colon then payload
                         else if |payload| < 2 then StringAt(before.buffer, 3)
                         else payload[3..])
      && (Packet(end) == payload <==> !colon || (|payload| < 2 && StringAt(before.buffer, 3) == payload))
      && end.sent == before.Reply([PLUS]).sent + if colon then end.buffer[..2] else []
  {
    var before := AfterAll(r, junk);
    FeedPacket(r, junk, payload);
    if ColonThird(before.buffer, payload) {
      StringAfterColon(before.buffer, payload);
    } else {
      StringOf(before.buffer, payload, 0);
    }
  }

  /**
   A payload of one byte does not come back if an earlier packet left a `:` in
   the third place and something else behind it; it does if the same byte is
   behind it.
   */
  lemma StaleColon(r: Reader, x: Byte)
    requires r.Valid() && r.phase.Waiting? && x != 0 && r.buffer[..5] == [0x61, 0x62, COLON, x, 0]
    ensures var end := FeedAll(r, Frame([0x3F]));
      end.phase == Returned(3) && Packet(end) == [x]
  {
    assert AllBytes([]) + Frame([0x3F]) == Frame([0x3F]);
    assert r.buffer[2] == r.buffer[..5][2] && r.buffer[3] == r.buffer[..5][3] && r.buffer[4] == r.buffer[..5][4];
    PacketRead(r, [], [0x3F]);
    assert StringAt(r.buffer, 4) == [];
  }

  /** A predicate on bytes that no digit meets. */
  predicate NotDigit(b: Byte) { b == DOLLAR || b == HASH || b == COLON || b == 0 }

  lemma {:induction false} HexIsPlain(mem: seq<Byte>)
    ensures forall b :: b in Hex(mem) ==> !NotDigit(b)
  {
    if mem != [] {
      HexIsPlain(mem[..|mem| - 1]);
    }
  }

  /** Memory contents written as digits, framed, and sent after any junk come out as the same memory contents. */
  lemma MemoryArrives(r: Reader, junk: seq<Junk>, mem: seq<Byte>)
    requires r.Valid() && r.phase.Waiting? && AllWellFormed(junk, false)
    requires mem != [] && 2 * |mem| < BUFFER_SIZE
    ensures var end := FeedAll(r, AllBytes(junk) + Frame(Hex(mem)));
      && end.phase == Returned(0)
      && |StringAt(end.buffer, 0)| == 2 * |mem| && Unhex(StringAt(end.buffer, 0), |mem|) == mem
  {
    var payload := Hex(mem);
    HexIsPlain(mem);
    assert forall b :: NotDigit(b) ==> b !in payload;
    assert |payload| > 2 ==> payload[2] in payload;
    PacketRead(r, junk, payload);
    UnhexHex(mem, []);
    assert payload + [] == payload;
  }

  // ----- The stub

  class Stub {
    const input: seq<Byte>
    var position: nat
    const buffer: array<Byte>
    var noAck: bool
    var sent: seq<Byte>

    ghost predicate Valid()
      reads this
    {
      buffer.Length == BUFFER_SIZE + 1 && position <= |input|
    }

    ghost function State(phase: Phase): Reader
      reads this, buffer
    {
      Reader(buffer[..], noAck, phase, sent)
    }

    constructor (input: seq<Byte>)
      ensures Valid() && this.input == input && position == 0 && fresh(buffer)
    {
      this.input := input;
      position := 0;
      buffer := new Byte[BUFFER_SIZE + 1](_ => 0);
      noAck := false;
      sent := [];
    }

    /** The next byte of the line, if one ever comes. */
    method SerialPortGetc() returns (ch: Option<Byte>)
      requires Valid()
      modifies this`position
      ensures Valid()
      ensures if old(position) < |input| then ch == Some(input[old(position)]) && position == old(position) + 1
              else ch == None && position == old(position)
    {
      if position == |input| {
        return None;
      }
      ch := Some(input[position]);
      position := position + 1;
    }

    /** The reader has got to where the bytes read since `from` take it. */
    ghost predicate At(start: Reader, from: nat, phase: Phase)
      reads this, buffer
      requires Valid()
    {
      start.Valid() && from <= position && State(phase) == FeedAll(start, input[from..position])
    }

    ghost predicate AtByte(start: Reader, from: nat, phase: Phase, at: nat)
      reads this, buffer
      requires Valid()
    {
      start.Valid() && from <= at <= |input| && State(phase) == FeedAll(start, input[from..at])
    }

    lemma Advance(start: Reader, from: nat, phase: Phase, at: nat)
      requires Valid() && at < |input| && AtByte(start, from, phase, at)
      ensures State(phase).Valid() && Feed(State(phase), input[at]) == FeedAll(start, input[from..at + 1])
    {
      assert input[from..at + 1] == input[from..at] + [input[at]];
      FeedLast(start, input[from..at], input[at]);
    }

    /** The next byte, by which the reader advances. */
    method NextByte(ghost start: Reader, ghost from: nat, ghost phase: Phase) returns (ch: Option<Byte>)
      requires Valid() && At(start, from, phase)
      modifies this`position
      ensures Valid()
      ensures ch.None? ==> position == old(position) == |input|
      ensures ch.Some? ==>
                && position == old(position) + 1
                && State(phase).Valid() && FeedAll(start, input[from..position]) == Feed(State(phase), ch.value)
    {
      if position < |input| {
        Advance(start, from, phase, position);
      }
      ch := SerialPortGetc();
    }

    /** Skips to the next `$`. */
    method WaitForDollar(ghost start: Reader, ghost from: nat) returns (ok: bool)
      requires Valid() && At(start, from, Waiting)
      modifies this`position
      ensures Valid() && At(start, from, if ok then InBody(0, 0) else Waiting)
      ensures if ok then position > old(position) else position == |input|
    {
      while true
        invariant Valid() && position >= old(position) && At(start, from, Waiting)
        decreases |input| - position
      {
        var ch := NextByte(start, from, Waiting);
        if ch.None? {
          return false;
        }
        if ch.value == DOLLAR {
          return true;
        }
      }
    }

    /** Stores a body up to its `#`; `None` if it fills the buffer or the line ends. */
    method ReadBody(ghost start: Reader, ghost from: nat) returns (sum: Option<Byte>, ghost phase: Phase)
      requires Valid() && At(start, from, InBody(0, 0))
      modifies this`position, buffer
      ensures Valid() && position >= old(position) && At(start, from, phase)
      ensures match sum
        case Some(s) => phase == HighDigit(s)
        case None => phase.Waiting? || (phase.InBody? && position == |input|)
    {
      var count: nat := 0;
      var checksum: Byte := 0;
      while count < BUFFER_SIZE
        invariant Valid() && position >= old(position) && count <= BUFFER_SIZE
        invariant At(start, from, if count < BUFFER_SIZE then InBody(count, checksum) else Waiting)
        decreases |input| - position
      {
        var ch := NextByte(start, from, InBody(count, checksum));
        if ch.None? {
          return None, InBody(count, checksum);
        }
        if ch.value == DOLLAR {
          count, checksum := 0, 0;
          continue;
        }
        if ch.value == HASH {
          buffer[count] := 0;
          return Some(checksum), HighDigit(checksum);
        }
        checksum := (checksum + ch.value) % 256;
        buffer[count] := ch.value;
        count := count + 1;
        if count == BUFFER_SIZE {
          buffer[count] := 0;
        }
      }
      return None, Waiting;
    }

    /** The checksum and the answer; `None` if the line ends, and `Some(None)` if the packet is refused. */
    method ReadChecksum(checksum: Byte, ghost start: Reader, ghost from: nat)
      returns (r: Option<Option<nat>>, ghost phase: Phase)
      requires Valid() && At(start, from, HighDigit(checksum))
      modifies this`position, this`sent
      ensures Valid() && position >= old(position) && At(start, from, phase)
      ensures match r
        case None => position == |input| && !phase.Returned?
        case Some(None) => phase.Waiting?
        case Some(Some(offset)) => phase == Returned(offset)
    {
      phase := HighDigit(checksum);
      var ch := NextByte(start, from, phase);
      if ch.None? {
        return None, phase;
      }
      var xmitcsum: Byte := HexToByte(ch.value) * 16 % 256;
      phase := LowDigit(checksum, xmitcsum);
      ch := NextByte(start, from, phase);
      if ch.None? {
        return None, phase;
      }
      xmitcsum := (xmitcsum + HexToByte(ch.value)) % 256;
      var offset := Answer(checksum == xmitcsum);
      phase := match offset { case Some(o) => Returned(o) case None => Waiting };
      return Some(offset), phase;
    }

    /** Says whether the checksum was right, and where the packet begins. */
    method Answer(same: bool) returns (offset: Option<nat>)
      requires Valid()
      modifies this`sent
      ensures if same then offset.Some? && State(Returned(offset.value)) == old(State(Waiting)).Accept()
              else offset.None? && State(Waiting) == old(State(Waiting)).Reply([MINUS])
    {
      if !same {
        if !noAck {
          sent := sent + [MINUS];
        }
        return None;
      }
      if !noAck {
        sent := sent + [PLUS];
      }
      if buffer[2] == COLON {
        sent := sent + [buffer[0], buffer[1]];
        return Some(3);
      }
      return Some(0);
    }

    /** Reads until a packet is accepted, and returns where in the buffer it begins; `None` if the line ends before. */
    method ReadPacket() returns (offset: Option<nat>, ghost phase: Phase)
      requires Valid()
      modifies this`position, this`sent, buffer
      ensures Valid() && position >= old(position)
      ensures State(phase) == FeedAll(old(State(Waiting)), input[old(position)..position])
      ensures match offset
        case None => position == |input| && !phase.Returned?
        case Some(o) => phase == Returned(o)
    {
      ghost var start, from := State(Waiting), position;
      assert input[from..from] == [];
      while true
        invariant Valid() && position >= from && At(start, from, Waiting)
        decreases |input| - position
      {
        var ok := WaitForDollar(start, from);
        if !ok {
          return None, Waiting;
        }
        var checksum, bodyPhase := ReadBody(start, from);
        if checksum.None? {
          if position == |input| {
            return None, bodyPhase;
          }
          continue;
        }
        var result, endPhase := ReadChecksum(checksum.value, start, from);
        if result.None? {
          return None, endPhase;
        }
        if result.value.Some? {
          return result.value, endPhase;
        }
      }
    }

    /** Sends the string in a buffer as a packet until the other side answers `+`, or just once without acknowledgements. */
    method WritePacket(data: seq<Byte>) returns (ok: bool, ghost times: nat)
      requires Valid() && 0 in data
      modifies this`position, this`sent
      ensures Valid() && sent == old(sent) + Repeated(Frame(StringAt(data, 0)), times)
      ensures noAck ==> ok && times == 1 && position == old(position)
      ensures !noAck && ok ==> position == old(position) + times && times > 0 && input[position - 1] == PLUS
      ensures !noAck && !ok ==> position == |input| == old(position) + times - 1
      ensures forall k :: old(position) <= k < old(position) + times - 1 ==> input[k] != PLUS
    {
      times := 0;
      ghost var frame := Frame(StringAt(data, 0));
      assert old(sent) + [] == old(sent);
      while true
        invariant Valid() && position == old(position) + times && (noAck ==> times == 0)
        invariant sent == old(sent) + Repeated(frame, times)
        invariant forall k :: old(position) <= k < position ==> input[k] != PLUS
        decreases |input| - position
      {
        SendFrame(data);
        RepeatedOnceMore(old(sent), frame, times);
        times := times + 1;
        if noAck {
          return true, times;
        }
        var ch := SerialPortGetc();
        if ch.None? {
          return false, times;
        }
        if ch.value == PLUS {
          return true, times;
        }
      }
    }

    /** One frame. */
    method SendFrame(data: seq<Byte>)
      requires 0 in data
      modifies this`sent
      ensures sent == old(sent) + Frame(StringAt(data, 0))
    {
      sent := sent + [DOLLAR];
      var checksum: Byte := 0;
      var count: nat := 0;
      ghost var body: seq<Byte> := [];
      while data[count] != 0
        invariant count <= |data| && 0 in data[count..] && body + StringAt(data, count) == StringAt(data, 0)
        invariant checksum == Sum(body) && sent == old(sent) + [DOLLAR] + body
        decreases |data| - count
      {
        NextChar(body, data, count);
        sent := sent + [data[count]];
        checksum := (checksum + data[count]) % 256;
        body := body + [data[count]];
        count := count + 1;
      }
      assert body == StringAt(data, 0);
      FrameInPieces(old(sent), body);
      sent := sent + [HASH];
      sent := sent + [HexChar(checksum / 16)];
      sent := sent + [HexChar(checksum % 16)];
    }
  }

  lemma FrameInPieces(before: seq<Byte>, body: seq<Byte>)
    ensures before + [DOLLAR] + body + [HASH] + [HexChar(Sum(body) / 16)] + [HexChar(Sum(body) % 16)] == before + Frame(body)
  {
  }

  lemma NextChar(body: seq<Byte>, data: seq<Byte>, count: nat)
    requires count < |data| && 0 in data[count..] && data[count] != 0
    ensures 0 in data[count + 1..]
    ensures (body + [data[count]]) + StringAt(data, count + 1) == body + StringAt(data, count)
    ensures Sum(body + [data[count]]) == (Sum(body) + data[count]) % 256
  {
    assert data[count..] == [data[count]] + data[count + 1..];
    assert (body + [data[count]])[..|body|] == body;
  }

  function Repeated(part: seq<Byte>, n: nat): seq<Byte>
  {
    if n == 0 then [] else Repeated(part, n - 1) + part
  }

  lemma RepeatedOnceMore(before: seq<Byte>, part: seq<Byte>, n: nat)
    ensures before + Repeated(part, n) + part == before + Repeated(part, n + 1)
  {
  }
}
