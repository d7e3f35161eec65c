/** Hexadecimal memory contents in the GDB remote protocol. */
module GdbHex {
  import opened Bits
  import opened Memory

  /** The value of a digit, or -1. */
  function HexToByte(ch: Byte): int
  {
    if 0x61 <= ch <= 0x66 then ch - 0x61 + 10
    else if 0x30 <= ch <= 0x39 then ch - 0x30
    else if 0x41 <= ch <= 0x46 then ch - 0x41 + 10
    else -1
  }

  /** The digits the stub writes: lower case. */
  function HexChar(v: nat): Byte
    requires v < 16
  {
    if v < 10 then 0x30 + v else 0x61 + (v - 10)
  }

  lemma DigitRoundTrip(v: nat)
    requires v < 16
    ensures HexToByte(HexChar(v)) == v
  {
  }

  /** The digits that are written, and those that are read: lower and upper case. */
  lemma DigitsAre(ch: Byte, v: nat)
    requires v < 16
    ensures HexChar(v) == "0123456789abcdef"[v] as int
    ensures HexToByte(ch) == v <==> ch == "0123456789abcdef"[v] as int || ch == "0123456789ABCDEF"[v] as int
    ensures -1 <= HexToByte(ch) < 16
  {
    var lower, upper := "0123456789abcdef", "0123456789ABCDEF";
    assert lower[v] as int == (if v < 10 then 0x30 + v else 0x57 + v);
    assert upper[v] as int == (if v < 10 then 0x30 + v else 0x37 + v);
  }

  /** What two digits stand for in an `unsigned char`, also if they are no digits. */
  function Pair(high: Byte, low: Byte): Byte
  {
    (HexToByte(high) * 16 + HexToByte(low)) % 256
  }

  function Hex(mem: seq<Byte>): (r: seq<Byte>)
    ensures |r| == 2 * |mem|
  {
    if mem == [] then []
    else
      var last := mem[|mem| - 1];
      Hex(mem[..|mem| - 1]) + [HexChar(last / 16), HexChar(last % 16)]
  }

  /** The two digits of each byte, the high one first. */
  lemma {:induction false} HexAt(mem: seq<Byte>, i: nat)
    requires i < |mem|
    ensures Hex(mem)[2 * i] == HexChar(mem[i] / 16) && Hex(mem)[2 * i + 1] == HexChar(mem[i] % 16)
    decreases |mem|
  {
    if i < |mem| - 1 {
      HexAt(mem[..|mem| - 1], i);
    }
  }

  function Unhex(digits: seq<Byte>, count: nat): (r: seq<Byte>)
    requires 2 * count <= |digits|
    ensures |r| == count
  {
    if count == 0 then []
    else Unhex(digits, count - 1) + [Pair(digits[2 * count - 2], digits[2 * count - 1])]
  }

  /** Reading back what was written gives the same bytes, whatever follows the digits. */
  lemma {:induction false} UnhexHex(mem: seq<Byte>, after: seq<Byte>)
    ensures Unhex(Hex(mem) + after, |mem|) == mem
  {
    if mem != [] {
      var first, last := mem[..|mem| - 1], mem[|mem| - 1];
      var digits := [HexChar(last / 16), HexChar(last % 16)];
      UnhexHex(first, digits + after);
      assert Hex(mem) + after == Hex(first) + (digits + after);
      DigitRoundTrip(last / 16);
      DigitRoundTrip(last % 16);
      assert Pair(digits[0], digits[1]) == last;
    }
  }

  /** Where a run of `count` accesses stops, given which of them fault: after the one that faults first. */
  function Accesses(count: nat, mayFault: bool, faults: nat -> bool, i: nat): (n: nat)
    requires i <= count
    ensures i <= n <= count
    ensures forall k :: i <= k < n && mayFault ==> !faults(k)
    ensures n < count ==> mayFault && faults(n)
    decreases count - i
  {
    if i == count || (mayFault && faults(i)) then i else Accesses(count, mayFault, faults, i + 1)
  }

  /** Writes digits and a NUL, unless a byte cannot be read; then the digits end before it, without a NUL. */
  method MemToHex(mem: seq<Byte>, buf: array<Byte>, count: nat, mayFault: bool, faults: nat -> bool) returns (end: nat)
    requires count <= |mem| && 2 * count < buf.Length
    modifies buf
    ensures var n := Accesses(count, mayFault, faults, 0);
      && end == 2 * n
      && buf[..] == Splice(old(buf[..]), 0, Hex(mem[..n]) + if n == count then [0] else [])
  {
    end := 0;
    ghost var before := buf[..];
    for i := 0 to count
      invariant end == 2 * i && Accesses(count, mayFault, faults, 0) == Accesses(count, mayFault, faults, i)
      invariant buf[..] == Splice(before, 0, Hex(mem[..i]))
    {
      if mayFault && faults(i) {
        assert Hex(mem[..i]) + [] == Hex(mem[..i]);
        return;
      }
      var ch := mem[i];
      buf[end] := HexChar(ch / 16);
      buf[end + 1] := HexChar(ch % 16);
      NextPair(before, mem, i);
      end := end + 2;
    }
    buf[end] := 0;
    AppendOne(before, Hex(mem[..count]), 0);
  }

  lemma NextPair(before: seq<Byte>, mem: seq<Byte>, i: nat)
    requires i < |mem| && 2 * i + 1 < |before|
    ensures Splice(before, 0, Hex(mem[..i]))[2 * i := HexChar(mem[i] / 16)][2 * i + 1 := HexChar(mem[i] % 16)]
         == Splice(before, 0, Hex(mem[..i + 1]))
  {
    assert mem[..i + 1][..i] == mem[..i];
  }

  lemma AppendOne(before: seq<Byte>, part: seq<Byte>, b: Byte)
    requires |part| < |before|
    ensures Splice(before, 0, part)[|part| := b] == Splice(before, 0, part + [b])
  {
  }

  /** The high digit first, cut to eight bits, then the low one. */
  method ReadPair(high: Byte, low: Byte) returns (ch: Byte)
    ensures ch == Pair(high, low)
  {
    ch := HexToByte(high) * 16 % 256;
    ch := (ch + HexToByte(low)) % 256;
  }

  /** Stores bytes until one cannot be written. */
  method HexToMem(buf: seq<Byte>, mem: array<Byte>, count: nat, mayFault: bool, faults: nat -> bool) returns (end: nat)
    requires 2 * count <= |buf| && count <= mem.Length
    modifies mem
    ensures var n := Accesses(count, mayFault, faults, 0);
      && end == (if n < count then n + 1 else n)
      && mem[..] == Splice(old(mem[..]), 0, Unhex(buf, n))
  {
    ghost var before := mem[..];
    end := 0;
    for i := 0 to count
      invariant end == i && Accesses(count, mayFault, faults, 0) == Accesses(count, mayFault, faults, i)
      invariant mem[..] == Splice(before, 0, Unhex(buf, i))
    {
      var ch := ReadPair(buf[2 * i], buf[2 * i + 1]);
      end := end + 1;
      if mayFault && faults(i) {
        return;
      }
      AppendOne(before, Unhex(buf, i), ch);
      mem[i] := ch;
    }
  }

  /** Memory written out by one call and read in by the other, at the same place or elsewhere, is the same again. */
  method RoundTrip(mem: seq<Byte>, buf: array<Byte>, target: array<Byte>, count: nat)
    requires count <= |mem| && count <= target.Length && 2 * count < buf.Length && target != buf
    modifies target, buf
    ensures target[..] == Splice(old(target[..]), 0, mem[..count])
  {
    var end := MemToHex(mem, buf, count, false, _ => false);
    UnhexHex(mem[..count], buf[2 * count..]);
    assert buf[..] == Hex(mem[..count]) + buf[2 * count..];
    end := HexToMem(buf[..], target, count, false, _ => false);
  }
}
