/** The cyclic redundancy check of PNG chunks (section 3.4 of RFC 2083), bit by bit and by table. */
module PngCrc {
  import opened Bits

  const POLYNOMIAL: bv32 := 0xEDB88320
  const BYTE: nat := 8
  const ALL_ONES: bv32 := 0xFFFFFFFF

  // ----- Bit by bit, as the standard defines it

  /** Subtracts the polynomial if a one was shifted out. */
  function Divide(crc: bv32, carry: bool): bv32 { if carry then crc ^ POLYNOMIAL else crc }

  /** Shifts one bit of data in, low bit first. */
  function FeedBit(crc: bv32, bit: bool): bv32
  {
    Divide(crc >> 1, (crc & 1 == 1) != bit)
  }

  /** The low `n` bits of a byte, the lowest first. */
  function FeedBits(crc: bv32, byte: bv32, n: nat): bv32
    decreases n
  {
    if n == 0 then crc else FeedBits(FeedBit(crc, byte & 1 == 1), byte >> 1, n - 1)
  }

  function FeedByte(crc: bv32, b: Byte): bv32 { FeedBits(crc, b as bv8 as bv32, BYTE) }

  /** The check value of a whole sequence of bytes, before the final complement. */
  function Feed(crc: bv32, data: seq<Byte>): bv32
  {
    if data == [] then crc else FeedByte(Feed(crc, data[..|data| - 1]), data[|data| - 1])
  }

  lemma {:induction false} FeedConcat(crc: bv32, a: seq<Byte>, b: seq<Byte>)
    ensures Feed(crc, a + b) == Feed(Feed(crc, a), b)
  {
    if b == [] {
      assert a + b == a;
    } else {
      FeedConcat(crc, a, b[..|b| - 1]);
      assert (a + b)[..|a + b| - 1] == a + b[..|b| - 1];
      assert (a + b)[|a + b| - 1] == b[|b| - 1];
    }
  }

  // ----- Eight steps at once

  /** One turn of the loop that makes the table. */
  function TableStep(crc: bv32): bv32
  {
    Divide(crc >> 1, crc & 1 == 1)
  }

  function TableSteps(crc: bv32, n: nat): bv32
    decreases n
  {
    if n == 0 then crc else TableSteps(TableStep(crc), n - 1)
  }

  lemma {:induction false} TableStepsLast(crc: bv32, n: nat)
    ensures TableSteps(crc, n + 1) == TableStep(TableSteps(crc, n))
    decreases n
  {
    if n > 0 {
      TableStepsLast(TableStep(crc), n - 1);
    }
  }

  function ShiftRight(x: bv32, n: nat): bv32
    decreases n
  {
    if n == 0 then x else ShiftRight(x >> 1, n - 1)
  }

  predicate LowBitsZero(x: bv32, n: nat)
    decreases n
  {
    n == 0 || (x & 1 == 0 && LowBitsZero(x >> 1, n - 1))
  }

  /**
   A register `f` that has yet to take in the data bits `b` stands for the same
   as a register `t` that holds them already, but lacks its own high part `h`.
   */
  predicate Match(f: bv32, b: bv32, t: bv32, h: bv32)
  {
    f ^ b == t ^ h
  }

  lemma MatchShifted(f: bv32, b: bv32, t: bv32, h: bv32)
    requires Match(f, b, t, h)
    ensures Match(f >> 1, b >> 1, t >> 1, h >> 1)
  {
  }

  lemma MatchCarry(f: bv32, b: bv32, t: bv32, h: bv32)
    requires Match(f, b, t, h) && h & 1 == 0
    ensures t & 1 == 1 <==> (f & 1 == 1) != (b & 1 == 1)
  {
  }

  lemma MatchDivided(f: bv32, b: bv32, t: bv32, h: bv32, carry: bool)
    requires Match(f, b, t, h)
    ensures Match(Divide(f, carry), b, Divide(t, carry), h)
  {
  }

  lemma MatchStep(f: bv32, b: bv32, t: bv32, h: bv32)
    requires Match(f, b, t, h) && h & 1 == 0
    ensures Match(FeedBit(f, b & 1 == 1), b >> 1, TableStep(t), h >> 1)
  {
    MatchCarry(f, b, t, h);
    MatchShifted(f, b, t, h);
    MatchDivided(f >> 1, b >> 1, t >> 1, h >> 1, t & 1 == 1);
  }

  lemma {:induction false} MatchSteps(f: bv32, b: bv32, t: bv32, h: bv32, n: nat)
    requires Match(f, b, t, h) && LowBitsZero(h, n)
    ensures Match(FeedBits(f, b, n), ShiftRight(b, n), TableSteps(t, n), ShiftRight(h, n))
    decreases n
  {
    if n > 0 {
      MatchStep(f, b, t, h);
      MatchSteps(FeedBit(f, b & 1 == 1), b >> 1, TableStep(t), h >> 1, n - 1);
    }
  }

  lemma ShiftByTwo(x: bv32, n: nat)
    ensures ShiftRight(x, n + 2) == ShiftRight(x >> 2, n)
  {
    assert x >> 1 >> 1 == x >> 2;
  }

  lemma EightShifts(x: bv32, n: nat)
    requires n == BYTE
    ensures ShiftRight(x, n) == x >> 8
  {
    ShiftByTwo(x, n - 2);
    ShiftByTwo(x >> 2, n - 4);
    ShiftByTwo(x >> 2 >> 2, n - 6);
    ShiftByTwo(x >> 2 >> 2 >> 2, n - 8);
    assert x >> 2 >> 2 >> 2 >> 2 == x >> 8;
  }

  lemma EightZeros(x: bv32)
    requires x & 0xFF == 0
    ensures LowBitsZero(x, BYTE)
  {
    var x4 := x >> 1 >> 1 >> 1 >> 1;
    assert LowBitsZero(x4, 4);
    assert LowBitsZero(x >> 1 >> 1, 6);
  }

  /** The table's entry for a byte. */
  function Entry(i: bv8): bv32 { TableSteps(i as bv32, BYTE) }

  /** Where the table is looked up. */
  function LookUp(crc: bv32, b: Byte): bv8
  {
    ((crc ^ (b as bv8 as bv32)) & 0xFF) as bv8
  }

  /** The register shifted by a byte, with the entry added, is `fed`. */
  predicate Steps(crc: bv32, entry: bv32, fed: bv32)
  {
    (crc >> 8) ^ entry == fed
  }

  /** One step by table is eight steps bit by bit, for every register and every byte. */
  lemma TableByte(crc: bv32, b: Byte)
    ensures Steps(crc, Entry(LookUp(crc, b)), FeedByte(crc, b))
  {
    var byte := b as bv8 as bv32;
    var low := (crc ^ byte) & 0xFF;
    assert byte & 0xFF == byte;
    assert (low as bv8) as bv32 == low;
    TableBits(crc, byte, low, BYTE);
  }

  lemma TableBits(crc: bv32, byte: bv32, low: bv32, n: nat)
    requires n == BYTE && byte & 0xFF == byte && low == (crc ^ byte) & 0xFF
    ensures Steps(crc, TableSteps(low, n), FeedBits(crc, byte, n))
  {
    var high := crc & 0xFFFFFF00;
    Halves(crc, byte);
    EightZeros(high);
    EightShifts(high, n);
    EightShifts(byte, n);
    MatchSteps(crc, byte, low, high, n);
    Matched(FeedBits(crc, byte, n), ShiftRight(byte, n), TableSteps(low, n), ShiftRight(high, n), crc);
  }

  lemma Halves(crc: bv32, byte: bv32)
    requires byte & 0xFF == byte
    ensures Match(crc, byte, (crc ^ byte) & 0xFF, crc & 0xFFFFFF00)
    ensures (crc & 0xFFFFFF00) & 0xFF == 0
    ensures byte >> 8 == 0 && (crc & 0xFFFFFF00) >> 8 == crc >> 8
  {
  }

  lemma Matched(f: bv32, b: bv32, t: bv32, h: bv32, crc: bv32)
    requires Match(f, b, t, h) && b == 0 && h == crc >> 8
    ensures Steps(crc, t, f)
  {
  }

  /** The inner loop: eight steps. */
  method MakeEntry(i: bv8) returns (crc: bv32)
    ensures crc == Entry(i)
  {
    crc := i as bv32;
    ghost var first := crc;
    for j := 0 to BYTE
      invariant crc == TableSteps(first, j)
    {
      TableStepsLast(first, j);
      if crc & 1 == 1 {
        crc := (crc >> 1) ^ POLYNOMIAL;
      } else {
        crc := crc >> 1;
      }
    }
  }

  ghost predicate IsTable(table: array<bv32>)
    reads table
  {
    table.Length == 256 && forall i: bv8 :: table[i as int] == Entry(i)
  }

  /** Makes the table. */
  method GenerateCRCTable() returns (table: array<bv32>)
    ensures fresh(table) && IsTable(table)
  {
    table := new bv32[256];
    for i := 0 to 256
      invariant forall k: bv8 :: k as int < i ==> table[k as int] == Entry(k)
    {
      table[i] := MakeEntry(i as bv8);
    }
  }

  /** The loop over a block of data. */
  method UpdateCrc(table: array<bv32>, crc0: bv32, data: seq<Byte>) returns (crc: bv32)
    requires IsTable(table)
    ensures crc == Feed(crc0, data)
  {
    crc := crc0;
    for i := 0 to |data|
      invariant crc == Feed(crc0, data[..i])
    {
      TableByte(crc, data[i]);
      assert data[..i + 1][..i] == data[..i];
      crc := (crc >> 8) ^ table[LookUp(crc, data[i]) as int];
    }
    assert data[..|data|] == data;
  }

  // ----- The register as a number

  function LowDigit(x: bv32): nat { if x & 1 == 1 then 1 else 0 }

  /** The number whose binary digits are those of the register. */
  function Number(x: bv32): nat
    decreases x
  {
    if x == 0 then 0 else LowDigit(x) + 2 * Number(x >> 1)
  }

  lemma {:induction false} NumberIsInjective(a: bv32, b: bv32)
    requires a != b
    ensures Number(a) != Number(b)
    decreases a
  {
    if a == 0 {
      NotZero(b);
    } else if b == 0 {
      NotZero(a);
    } else {
      NumbersDiffer(a, a >> 1, b, b >> 1);
    }
  }

  lemma {:induction false} NumbersDiffer(a: bv32, a1: bv32, b: bv32, b1: bv32)
    requires a != 0 && b != 0 && a != b && a1 == a >> 1 && b1 == b >> 1
    ensures Number(a) != Number(b)
    decreases a, 0
  {
    var d := Halved(a, a1);
    var e := Halved(b, b1);
    if a1 == b1 {
      SameHigh(a, b);
    } else {
      NumberIsInjective(a1, b1);
    }
    DigitsDiffer(d, Number(a1), e, Number(b1));
  }

  /** A number that is not zero, in terms of its last digit and its half. */
  lemma {:induction false} Halved(x: bv32, half: bv32) returns (digit: nat)
    requires x != 0 && half == x >> 1
    ensures digit == LowDigit(x) < 2 && Number(x) == digit + 2 * Number(half) && half < x
  {
    digit := LowDigit(x);
  }

  lemma DigitsDiffer(d: nat, m: nat, e: nat, n: nat)
    requires d < 2 && e < 2 && (d != e || m != n)
    ensures d + 2 * m != e + 2 * n
  {
  }

  lemma {:induction false} NotZero(a: bv32)
    requires a != 0
    ensures Number(a) > 0
    decreases a
  {
    if a & 1 != 1 {
      assert a >> 1 != 0;
      NotZero(a >> 1);
    }
  }

  lemma SameHigh(a: bv32, b: bv32)
    requires a != b && a >> 1 == b >> 1
    ensures LowDigit(a) != LowDigit(b)
  {
  }

  lemma {:induction false} NumberBound(x: bv32, n: nat)
    requires ShiftRight(x, n) == 0
    ensures Number(x) < Pow2(n)
    decreases n
  {
    if n > 0 && x != 0 {
      NumberBound(x >> 1, n - 1);
    }
  }

  lemma {:induction false} ShiftSum(x: bv32, a: nat, b: nat)
    ensures ShiftRight(x, a + b) == ShiftRight(ShiftRight(x, a), b)
    decreases a
  {
    if a > 0 {
      ShiftSum(x >> 1, a - 1, b);
    }
  }

  lemma FourBytes(x: bv32, n: nat)
    requires n == BYTE
    ensures ShiftRight(x, n + (n + (n + n))) == 0
  {
    ShiftSum(x, n, n + (n + n));
    ShiftSum(x >> 8, n, n + n);
    ShiftSum(x >> 8 >> 8, n, n);
    EightShifts(x, n);
    EightShifts(x >> 8, n);
    EightShifts(x >> 8 >> 8, n);
    EightShifts(x >> 8 >> 8 >> 8, n);
    assert x >> 8 >> 8 >> 8 >> 8 == 0;
  }

  lemma NumberIsWord(x: bv32)
    ensures Number(x) < 0x1_0000_0000
  {
    WordBound(x, BYTE);
  }

  lemma WordBound(x: bv32, n: nat)
    requires n == BYTE
    ensures Number(x) < 0x1_0000_0000
  {
    FourBytes(x, n);
    NumberBound(x, n + (n + (n + n)));
    Pow2Values();
    SixteenTimes(12);
    SixteenTimes(16);
    SixteenTimes(20);
    SixteenTimes(24);
    SixteenTimes(28);
  }

  lemma SixteenTimes(n: nat)
    ensures Pow2(n + 4) == 16 * Pow2(n)
  {
    assert Pow2(n + 2) == 4 * Pow2(n);
  }

  /** The value stored in a chunk: the complement of what is left in the register. */
  function Complement(crc: bv32): (v: nat)
    ensures v < 0x1_0000_0000
  {
    NumberIsWord(crc ^ ALL_ONES);
    Number(crc ^ ALL_ONES)
  }

  lemma ComplementIsInjective(a: bv32, b: bv32)
    requires a != b
    ensures Complement(a) != Complement(b)
  {
    var x, y := a ^ ALL_ONES, b ^ ALL_ONES;
    assert x != y;
    NumberIsInjective(x, y);
  }

  // ----- What the check finds

  lemma StepIsInjective(a: bv32, b: bv32)
    requires TableStep(a) == TableStep(b)
    ensures a == b
  {
  }

  lemma {:induction false} StepsAreInjective(a: bv32, b: bv32, n: nat)
    requires TableSteps(a, n) == TableSteps(b, n)
    ensures a == b
    decreases n
  {
    if n > 0 {
      StepsAreInjective(TableStep(a), TableStep(b), n - 1);
      StepIsInjective(a, b);
    }
  }

  lemma BitIsInjective(a: bv32, b: bv32, bit: bool)
    requires FeedBit(a, bit) == FeedBit(b, bit)
    ensures a == b
  {
  }

  lemma {:induction false} SameBits(a: bv32, b: bv32, byte: bv32, n: nat)
    requires FeedBits(a, byte, n) == FeedBits(b, byte, n)
    ensures a == b
    decreases n
  {
    if n > 0 {
      SameBits(FeedBit(a, byte & 1 == 1), FeedBit(b, byte & 1 == 1), byte >> 1, n - 1);
      BitIsInjective(a, b, byte & 1 == 1);
    }
  }

  /** No data make two registers the same. */
  lemma {:induction false} SameData(a: bv32, b: bv32, data: seq<Byte>)
    requires Feed(a, data) == Feed(b, data)
    ensures a == b
  {
    if data != [] {
      var last := |data| - 1;
      SameBits(Feed(a, data[..last]), Feed(b, data[..last]), data[last] as bv8 as bv32, BYTE);
      SameData(a, b, data[..last]);
    }
  }

  /** Two bytes do not do the same to a register. */
  lemma SameByte(crc: bv32, x: bv32, y: bv32, n: nat)
    requires n == BYTE && x & 0xFF == x && y & 0xFF == y
    requires FeedBits(crc, x, n) == FeedBits(crc, y, n)
    ensures x == y
  {
    AllAtOnce(crc, x, n);
    AllAtOnce(crc, y, n);
    StepsAreInjective(crc ^ x, crc ^ y, n);
    XorIsInjective(crc, x, y);
  }

  lemma XorIsInjective(crc: bv32, x: bv32, y: bv32)
    requires crc ^ x == crc ^ y
    ensures x == y
  {
  }

  lemma AllAtOnce(crc: bv32, byte: bv32, n: nat)
    requires n == BYTE && byte & 0xFF == byte
    ensures TableSteps(crc ^ byte, n) == FeedBits(crc, byte, n)
  {
    EightZeros(0);
    EightShifts(0, n);
    EightShifts(byte, n);
    TwoHalves(crc, byte);
    MatchSteps(crc, byte, crc ^ byte, 0, n);
    NothingLeft(FeedBits(crc, byte, n), ShiftRight(byte, n), TableSteps(crc ^ byte, n), ShiftRight(0, n));
  }

  lemma TwoHalves(crc: bv32, byte: bv32)
    requires byte & 0xFF == byte
    ensures Match(crc, byte, crc ^ byte, 0) && byte >> 8 == 0
  {
  }

  lemma NothingLeft(f: bv32, b: bv32, t: bv32, h: bv32)
    requires Match(f, b, t, h) && b == 0 && h == 0
    ensures t == f
  {
  }

  /** Whatever byte of the data is changed, the check value is another one. */
  lemma OneByteChanged(crc: bv32, data: seq<Byte>, i: nat, b: Byte)
    requires i < |data| && b != data[i]
    ensures Feed(crc, data[i := b]) != Feed(crc, data)
  {
    var changed := data[i := b];
    var before, after := Feed(crc, data[..i]), data[i + 1..];
    assert data == data[..i] + [data[i]] + after && changed == data[..i] + [b] + after;
    FeedConcat(crc, data[..i] + [data[i]], after);
    FeedConcat(crc, data[..i] + [b], after);
    assert (data[..i] + [data[i]])[..i] == data[..i] == (data[..i] + [b])[..i];
    if Feed(crc, changed) == Feed(crc, data) {
      SameData(FeedByte(before, data[i]), FeedByte(before, b), after);
      DifferentBytes(before, data[i], b);
    }
  }

  lemma DifferentBytes(crc: bv32, x: Byte, y: Byte)
    requires FeedByte(crc, x) == FeedByte(crc, y)
    ensures x == y
  {
    SameNarrow(crc, x as bv8, y as bv8);
    SameNumber(x, y);
  }

  lemma SameNumber(x: Byte, y: Byte)
    requires x as bv8 == y as bv8
    ensures x == y
  {
    ThereAndBack(x);
    ThereAndBack(y);
  }

  lemma ThereAndBack(x: Byte)
    ensures (x as bv8) as int == x
  {
    assert x % 256 == x;
  }

  lemma SameNarrow(crc: bv32, x: bv8, y: bv8)
    requires FeedBits(crc, x as bv32, BYTE) == FeedBits(crc, y as bv32, BYTE)
    ensures x == y
  {
    Wide(x);
    Wide(y);
    SameByte(crc, x as bv32, y as bv32, BYTE);
  }

  lemma Wide(x: bv8)
    ensures (x as bv32) & 0xFF == x as bv32
  {
  }

  // ----- A check value of zero

  /** A chunk type, and data for it whose check value is zero. */
  const IEND: seq<Byte> := [0x49, 0x45, 0x4E, 0x44]
  const TEXT: seq<Byte> := [0x74, 0x45, 0x58, 0x74]
  const ZERO_DATA: seq<Byte> := [0x18, 0xCF, 0x9B, 0xFB]

  lemma FeedFour(crc: bv32, a: Byte, b: Byte, c: Byte, d: Byte)
    ensures Feed(crc, [a, b, c, d]) == FeedByte(FeedByte(FeedByte(FeedByte(crc, a), b), c), d)
  {
    assert [a, b, c, d][..3] == [a, b, c] && [a, b, c][..2] == [a, b] && [a, b][..1] == [a] && [a][..0] == [];
    assert Feed(crc, [a]) == FeedByte(Feed(crc, []), a);
    assert Feed(crc, [a, b]) == FeedByte(Feed(crc, [a]), b);
    assert Feed(crc, [a, b, c]) == FeedByte(Feed(crc, [a, b]), c);
  }

  lemma TextRegister()
    ensures Feed(ALL_ONES, TEXT) == 0x69BD3A7A
  {
    FeedFour(ALL_ONES, 0x74, 0x45, 0x58, 0x74);
    assert FeedByte(ALL_ONES, 0x74) == 0x7A95A557;
    assert FeedByte(0x7A95A557, 0x45) == 0xF3C3E4ED;
    assert FeedByte(0xF3C3E4ED, 0x58) == 0xBBF884E7;
    assert FeedByte(0xBBF884E7, 0x74) == 0x69BD3A7A;
  }

  lemma ZeroDataRegister()
    ensures Feed(0x69BD3A7A, ZERO_DATA) == ALL_ONES
  {
    FeedFour(0x69BD3A7A, 0x18, 0xCF, 0x9B, 0xFB);
    assert FeedByte(0x69BD3A7A, 0x18) == 0xA3D5BD4E;
    assert FeedByte(0xA3D5BD4E, 0xCF) == 0x9A1C660B;
    assert FeedByte(0x9A1C660B, 0x9B) == 0xF0958F22;
    assert FeedByte(0xF0958F22, 0xFB) == 0xFFFFFFFF;
  }

  lemma ZeroCheckValue()
    ensures Complement(Feed(ALL_ONES, TEXT + ZERO_DATA)) == 0
  {
    FeedConcat(ALL_ONES, TEXT, ZERO_DATA);
    TextRegister();
    ZeroDataRegister();
  }

  lemma EndRegister()
    ensures Feed(ALL_ONES, IEND) == 0x51BD9F7D
  {
    FeedFour(ALL_ONES, 0x49, 0x45, 0x4E, 0x44);
    assert FeedByte(ALL_ONES, 0x49) == 0x22FDE946;
    assert FeedByte(0x22FDE946, 0x45) == 0x992BAC53;
    assert FeedByte(0x992BAC53, 0x4E) == 0x639F4775;
    assert FeedByte(0x639F4775, 0x44) == 0x51BD9F7D;
  }

  /** A number in terms of its last four binary digits. */
  lemma LastFour(a: bv32, b: bv32, c: bv32, d: bv32, e: bv32)
    requires b == a >> 1 && c == b >> 1 && d == c >> 1 && e == d >> 1
    ensures Number(a) == 16 * Number(e) + (LowDigit(a) + 2 * LowDigit(b) + 4 * LowDigit(c) + 8 * LowDigit(d))
  {
    Doubled(a, b);
    Doubled(b, c);
    Doubled(c, d);
    Doubled(d, e);
  }

  lemma Doubled(x: bv32, half: bv32)
    requires half == x >> 1
    ensures Number(x) == LowDigit(x) + 2 * Number(half)
  {
  }

  lemma EndNumber(x: bv32)
    requires x == 0xAE426082
    ensures Number(x) == 0xAE42_6082
  {
    LastFour(x, 0x57213041, 0x2B909820, 0x15C84C10, 0xAE42608);
    LastFour(0xAE42608, 0x5721304, 0x2B90982, 0x15C84C1, 0xAE4260);
    LastFour(0xAE4260, 0x572130, 0x2B9098, 0x15C84C, 0xAE426);
    LastFour(0xAE426, 0x57213, 0x2B909, 0x15C84, 0xAE42);
    LastFour(0xAE42, 0x5721, 0x2B90, 0x15C8, 0xAE4);
    LastFour(0xAE4, 0x572, 0x2B9, 0x15C, 0xAE);
    LastFour(0xAE, 0x57, 0x2B, 0x15, 0xA);
    LastFour(0xA, 0x5, 0x2, 0x1, 0);
  }

  /** The check value of an IEND chunk, which has no data. */
  lemma EndCheckValue()
    ensures Complement(Feed(ALL_ONES, IEND)) == 0xAE42_6082
  {
    EndRegister();
    var x: bv32 := 0x51BD9F7D;
    EndNumber(x ^ ALL_ONES);
  }
}
