/** Colours, and how 16-bit and 32-bit pixels hold them. */
module Colours {
  import opened Bits

  datatype Color = Color(red: Byte, green: Byte, blue: Byte)

  /** The values of a channel that is `bits` wide; masks are kept in a byte, so a channel has one to eight bits. */
  predicate IsWidth(bits: nat) { 1 <= bits <= 8 }

  function Range(bits: nat): nat
    requires IsWidth(bits)
  {
    [2, 4, 8, 16, 32, 64, 128, 256][bits - 1]
  }

  // ----- One channel

  /** A channel value blown up to eight bits: the value in the high bits, and its own high bits smeared below them. */
  function Extract(v: nat, bits: nat): Byte
    requires IsWidth(bits) && v < Range(bits)
  {
    if bits == 8 then v
    else if bits == 5 then v * 8 + v / 4
    else if bits == 6 then v * 4 + v / 16
    else
      var high := v * (256 / Range(bits));
      high + high / Range(bits)
  }

  /** The high bits of a byte. */
  function Compress(c: Byte, bits: nat): nat
    requires IsWidth(bits)
  {
    if bits == 8 then c else if bits == 5 then c / 8 else if bits == 6 then c / 4 else c / (256 / Range(bits))
  }

  /** A channel survives being read as a colour and written back, whatever its width. */
  lemma ChannelRoundTrip(v: nat, bits: nat)
    requires IsWidth(bits) && v < Range(bits)
    ensures Compress(Extract(v, bits), bits) == v
  {
    if bits <= 4 {
      NarrowChannel(v, bits);
    } else if bits == 7 {
    }
  }

  lemma NarrowChannel(v: nat, bits: nat)
    requires 1 <= bits <= 4 && v < Range(bits)
    ensures Compress(Extract(v, bits), bits) == v
  {
    if bits == 1 {
    } else if bits == 2 {
    } else if bits == 3 {
    }
  }

  /** The fast paths for five, six and eight bits do what the general path does. */
  lemma FastPathsAgree(v: nat, bits: nat)
    requires IsWidth(bits) && v < Range(bits)
    ensures var high := v * (256 / Range(bits)); Extract(v, bits) == high + high / Range(bits)
  {
    if bits == 5 {
    } else if bits == 6 {
    } else if bits == 8 {
    }
  }

  /** Black stays black, but white stays white only in channels of four bits or more. */
  lemma ExtremesKept(bits: nat)
    requires IsWidth(bits)
    ensures Extract(0, bits) == 0
    ensures Extract(Range(bits) - 1, bits) == 255 <==> bits >= 4
  {
    if bits == 1 {
    } else if bits == 2 {
    } else if bits == 3 {
    } else if bits == 4 {
    } else if bits == 7 {
    }
  }

  /** A channel of `b` bits has `2^b` values, and what is stored are the highest `b` bits of the colour's byte. */
  lemma CompressKeepsHighBits(c: Byte, bits: nat)
    requires IsWidth(bits)
    ensures Range(bits) == Pow2(bits) && 256 % Pow2(bits) == 0
    ensures var step := 256 / Pow2(bits); Compress(c, bits) * step <= c < (Compress(c, bits) + 1) * step
  {
    Pow2Values();
    if bits == 1 {
    } else if bits == 2 {
    } else if bits == 3 {
    } else if bits == 4 {
    } else if bits == 5 {
    } else if bits == 6 {
    } else if bits == 7 {
    }
  }

  // ----- Pixels of the default formats

  /** Five bits of red, six of green, five of blue. */
  function Decode16(raw: nat): Color
    requires raw < 0x1_0000
  {
    Color(Extract(raw / 0x800 % 0x20, 5), Extract(raw / 0x20 % 0x40, 6), Extract(raw % 0x20, 5))
  }

  function Encode16(c: Color): (raw: nat)
    ensures raw < 0x1_0000
  {
    Compress(c.red, 5) * 0x800 + Compress(c.green, 6) * 0x20 + Compress(c.blue, 5)
  }

  /** Decoding a 16-bit pixel and encoding it again changes nothing. */
  lemma Pixel16RoundTrip(raw: nat)
    requires raw < 0x1_0000
    ensures Encode16(Decode16(raw)) == raw
  {
    var upper := raw / 0x20;
    assert raw / 0x800 == upper / 0x40;
    ChannelRoundTrip(raw / 0x800 % 0x20, 5);
    ChannelRoundTrip(upper % 0x40, 6);
    ChannelRoundTrip(raw % 0x20, 5);
  }

  /** Eight bits each of red, green and blue, from the third byte down. */
  function Decode32(raw: nat): Color
    requires raw < 0x1_0000_0000
  {
    Color(Extract(raw / 0x1_0000 % 0x100, 8), Extract(raw / 0x100 % 0x100, 8), Extract(raw % 0x100, 8))
  }

  function Encode32(c: Color): (raw: nat)
    ensures raw < 0x1_0000_0000
  {
    Compress(c.red, 8) * 0x1_0000 + Compress(c.green, 8) * 0x100 + Compress(c.blue, 8)
  }

  /** A colour survives in a 32-bit pixel. */
  lemma Color32RoundTrip(c: Color)
    ensures Decode32(Encode32(c)) == c
  {
    var raw := Encode32(c);
    assert raw / 0x100 == (c.red as int) * 0x100 + c.green;
    assert raw / 0x1_0000 == raw / 0x100 / 0x100 == c.red;
  }

  /**
   A 32-bit pixel survives being read as a colour and written back exactly if
   its high byte is zero; copying the bytes keeps that byte as well.
   */
  lemma Pixel32RoundTrip(raw: nat)
    requires raw < 0x1_0000_0000
    ensures Encode32(Decode32(raw)) == raw % 0x100_0000
    ensures Encode32(Decode32(raw)) == raw <==> raw < 0x100_0000
  {
    var upper := raw / 0x100;
    assert raw / 0x1_0000 == upper / 0x100;
    assert raw % 0x100_0000 == upper / 0x100 % 0x100 * 0x1_0000 + upper % 0x100 * 0x100 + raw % 0x100;
  }

  /** Where the channels are in a pixel of 16 bits, and in one of 32. */
  lemma PixelLayout(c: Color)
    ensures Encode16(c) == c.red / 8 * 0x800 + c.green / 4 * 0x20 + c.blue / 8
    ensures Encode32(c) == c.red * 0x1_0000 + c.green * 0x100 + c.blue
  {
  }

  /** Each channel of a 16-bit pixel has its own high bits below it. */
  lemma PixelColours(raw: nat)
    requires raw < 0x1_0000
    ensures var r, g, b := raw / 0x800 % 0x20, raw / 0x20 % 0x40, raw % 0x20;
      Decode16(raw) == Color(8 * r + r / 4, 4 * g + g / 16, 8 * b + b / 4)
  {
  }

  // ----- Pixels in memory, least significant byte first

  function LittleEndian(b: seq<Byte>): (v: nat)
    ensures v < Pow256(|b|)
  {
    if b == [] then 0 else b[0] + 256 * LittleEndian(b[1..])
  }

  function Pow256(n: nat): (r: nat)
    ensures r > 0
  {
    if n == 0 then 1 else 256 * Pow256(n - 1)
  }

  function LittleEndianBytes(v: nat, n: nat): (b: seq<Byte>)
    ensures |b| == n
  {
    if n == 0 then [] else [v % 256] + LittleEndianBytes(v / 256, n - 1)
  }

  /** Writing `n` bytes of a number keeps it modulo 256 to the `n`. */
  lemma {:induction false} LittleEndianRoundTrip(v: nat, n: nat)
    ensures v < Pow256(n) ==> LittleEndian(LittleEndianBytes(v, n)) == v
  {
    if n > 0 && v < Pow256(n) {
      LittleEndianRoundTrip(v / 256, n - 1);
      assert LittleEndianBytes(v, n)[1..] == LittleEndianBytes(v / 256, n - 1);
    }
  }

  lemma {:induction false} BytesOfLittleEndian(b: seq<Byte>)
    ensures LittleEndianBytes(LittleEndian(b), |b|) == b
  {
    if b != [] {
      BytesOfLittleEndian(b[1..]);
      assert b == [b[0]] + b[1..];
    }
  }

  /** The bytes of a number of 32 bits, the lowest first. */
  lemma FourBytes(v: nat)
    ensures LittleEndianBytes(v, 4) == [v % 0x100, v / 0x100 % 0x100, v / 0x1_0000 % 0x100, v / 0x100_0000 % 0x100]
  {
    var a := v / 0x100;
    var b := a / 0x100;
    var c := b / 0x100;
    assert b == v / 0x1_0000 && c == v / 0x100_0000;
    assert LittleEndianBytes(c, 1) == [c % 0x100];
    assert LittleEndianBytes(b, 2) == [b % 0x100, c % 0x100];
    assert LittleEndianBytes(a, 3) == [a % 0x100, b % 0x100, c % 0x100];
  }

  lemma TwoBytes(v: nat)
    ensures LittleEndianBytes(v, 2) == [v % 0x100, v / 0x100 % 0x100]
  {
    assert LittleEndianBytes(v / 0x100, 1) == [v / 0x100 % 0x100];
  }

  lemma Pow256Values()
    ensures Pow256(1) == 0x100 && Pow256(2) == 0x1_0000 && Pow256(4) == 0x1_0000_0000
  {
    assert Pow256(3) == 0x100_0000;
  }
}
