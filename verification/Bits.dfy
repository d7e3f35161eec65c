/**
 Bytes, and bit sequences in the order in which GIF packs its codes: the
 first bit of a sequence is the least significant one.
 */
module Bits {

  type Byte = b: int | 0 <= b < 256
  type Bit = b: int | 0 <= b < 2

  function Zeros(n: nat): (r: seq<Byte>)
    ensures |r| == n
  {
    seq(n, _ => 0)
  }

  function Pow2(n: nat): (r: nat)
    ensures r >= 1
  {
    if n == 0 then 1 else 2 * Pow2(n - 1)
  }

  lemma {:induction false} Pow2Monotone(a: nat, b: nat)
    requires a <= b
    ensures Pow2(a) <= Pow2(b)
    decreases b
  {
    if a < b {
      Pow2Monotone(a, b - 1);
    }
  }

  /** The powers of two that the LZW code widths need. */
  lemma Pow2Values()
    ensures Pow2(2) == 4 && Pow2(3) == 8 && Pow2(4) == 16 && Pow2(5) == 32 && Pow2(6) == 64
    ensures Pow2(7) == 128 && Pow2(8) == 256 && Pow2(9) == 512 && Pow2(10) == 1024
    ensures Pow2(11) == 2048 && Pow2(12) == 4096
  {
    assert Pow2(4) == 16;
    assert Pow2(8) == 256;
  }

  /** The number whose bits are `bits`, least significant first. */
  function Value(bits: seq<Bit>): (r: nat)
    ensures r < Pow2(|bits|)
  {
    if bits == [] then 0 else bits[0] + 2 * Value(bits[1..])
  }

  /** The low `n` bits of `v`, least significant first. */
  function BitsOfNumber(v: nat, n: nat): (r: seq<Bit>)
    ensures |r| == n
  {
    if n == 0 then [] else [v % 2] + BitsOfNumber(v / 2, n - 1)
  }

  lemma {:induction false} ValueOfBits(v: nat, n: nat)
    requires v < Pow2(n)
    ensures Value(BitsOfNumber(v, n)) == v
  {
    if n > 0 {
      ValueOfBits(v / 2, n - 1);
      assert BitsOfNumber(v, n)[1..] == BitsOfNumber(v / 2, n - 1);
    }
  }

  lemma {:induction false} BitsOfValue(bits: seq<Bit>)
    ensures BitsOfNumber(Value(bits), |bits|) == bits
  {
    if bits != [] {
      BitsOfValue(bits[1..]);
    }
  }

  /** `b << i`. */
  function ShiftLeft(b: Bit, i: nat): nat
  {
    if b == 0 then 0 else Pow2(i)
  }

  /** `(v >> k) & 1`. */
  function NthBit(v: nat, k: nat): Bit
  {
    if k == 0 then v % 2 else NthBit(v / 2, k - 1)
  }

  /** The bit with weight `2^k`. */
  lemma {:induction false} NthBitIs(v: nat, k: nat)
    ensures NthBit(v, k) == v / Pow2(k) % 2
  {
    if k > 0 {
      NthBitIs(v / 2, k - 1);
      DividedTwice(v, 2, Pow2(k - 1));
    }
  }

  /** Dividing twice. */
  lemma DividedTwice(v: nat, d: nat, p: nat)
    requires d > 0 && p > 0
    ensures d * p > 0 && v / d / p == v / (d * p)
  {
    var h := v / d;
    var q, r := h / p, h % p;
    assert h == q * p + r && v == h * d + v % d;
    assert h * d == q * (d * p) + r * d;
    BelowProduct(r, p, v % d, d);
    QuotientIs(v, d * p, q, r * d + v % d);
  }

  lemma BelowProduct(r: nat, p: nat, s: nat, d: nat)
    requires r < p && s < d
    ensures r * d + s < d * p
  {
    assert (r + 1) * d <= p * d;
  }

  lemma QuotientIs(v: nat, m: nat, q: nat, r: nat)
    requires m > 0 && v == m * q + r && r < m
    ensures v / m == q && v % m == r
  {
    var p := v / m;
    assert v == m * p + v % m;
    if p > q {
      assert m * p == m * q + m * (p - q);
      AtLeast(m, p - q);
    } else if p < q {
      assert m * q == m * p + m * (q - p);
      AtLeast(m, q - p);
    }
  }

  lemma AtLeast(m: nat, d: nat)
    requires d > 0
    ensures m * d >= m
  {
    assert m * d == m + m * (d - 1);
  }

  /** Appending one more significant bit adds its weight. */
  lemma {:induction false} ValueAppend(bits: seq<Bit>, b: Bit)
    ensures Value(bits + [b]) == Value(bits) + ShiftLeft(b, |bits|)
  {
    if bits == [] {
      assert Value([b]) == b + 2 * Value([]);
    } else {
      ValueAppend(bits[1..], b);
      assert (bits + [b])[1..] == bits[1..] + [b];
    }
  }

  lemma {:induction false} BitsOfNumberAt(v: nat, n: nat, k: nat)
    requires k < n
    ensures BitsOfNumber(v, n)[k] == NthBit(v, k)
  {
    if k > 0 {
      BitsOfNumberAt(v / 2, n - 1, k - 1);
    }
  }

  /** The bits of a byte sequence, each byte least significant bit first. */
  function BitsOf(data: seq<Byte>): (r: seq<Bit>)
    ensures |r| == 8 * |data|
  {
    if data == [] then [] else BitsOfNumber(data[0], 8) + BitsOf(data[1..])
  }

  /** Where the bit reader finds bit `k` of byte `p`. */
  lemma {:induction false} BitsOfAt(data: seq<Byte>, p: nat, k: nat)
    requires p < |data| && k < 8
    ensures BitsOf(data)[8 * p + k] == NthBit(data[p], k)
  {
    if p == 0 {
      BitsOfNumberAt(data[0], 8, k);
    } else {
      BitsOfAt(data[1..], p - 1, k);
    }
  }

  /** Packs bits into bytes; the last byte is filled up with zero bits. */
  function Pack(bits: seq<Bit>): (r: seq<Byte>)
    decreases |bits|
  {
    if bits == [] then []
    else if |bits| < 8 then
      assert Pow2(8) == 256 by { Pow2Values(); }
      Pow2Monotone(|bits|, 8);
      [Value(bits)]
    else
      assert Pow2(8) == 256 by { Pow2Values(); }
      [Value(bits[..8])] + Pack(bits[8..])
  }

  lemma {:induction false} BitsOfNumberPad(v: nat, n: nat, m: nat)
    requires v < Pow2(n) && n <= m
    ensures BitsOfNumber(v, n) <= BitsOfNumber(v, m)
  {
    if n > 0 {
      BitsOfNumberPad(v / 2, n - 1, m - 1);
    }
  }

  /** Unpacking gives the packed bits back, followed by fewer than eight fill bits. */
  lemma {:induction false} PackUnpack(bits: seq<Bit>)
    ensures bits <= BitsOf(Pack(bits))
    ensures |BitsOf(Pack(bits))| < |bits| + 8
    decreases |bits|
  {
    if bits == [] {
    } else if |bits| < 8 {
      var v := Value(bits);
      assert Pow2(8) == 256 by { Pow2Values(); }
      Pow2Monotone(|bits|, 8);
      BitsOfValue(bits);
      BitsOfNumberPad(v, |bits|, 8);
      assert BitsOf([v]) == BitsOfNumber(v, 8) + BitsOf([]);
      assert BitsOf([v]) == BitsOfNumber(v, 8);
    } else {
      BitsOfValue(bits[..8]);
      PackUnpack(bits[8..]);
      var packed := Pack(bits);
      assert packed[1..] == Pack(bits[8..]);
      assert BitsOf(packed) == bits[..8] + BitsOf(Pack(bits[8..]));
      assert bits == bits[..8] + bits[8..];
    }
  }

  lemma {:induction false} BitsOfConcat(a: seq<Byte>, b: seq<Byte>)
    ensures BitsOf(a + b) == BitsOf(a) + BitsOf(b)
  {
    if a == [] {
      assert a + b == b;
    } else {
      var head := BitsOfNumber(a[0], 8);
      BitsOfConcat(a[1..], b);
      assert (a + b)[1..] == a[1..] + b;
      assert BitsOf(a + b) == head + (BitsOf(a[1..]) + BitsOf(b));
      assert BitsOf(a) == head + BitsOf(a[1..]);
    }
  }

  /** The packed bits are the first bits of the bytes, whatever bytes come after them. */
  lemma PackedFirst(bits: seq<Bit>, trailer: seq<Byte>) returns (tail: seq<Bit>)
    ensures BitsOf(Pack(bits) + trailer) == bits + tail
  {
    PackUnpack(bits);
    BitsOfConcat(Pack(bits), trailer);
    var packed := BitsOf(Pack(bits));
    tail := packed[|bits|..] + BitsOf(trailer);
    assert packed == bits + packed[|bits|..];
  }
}
