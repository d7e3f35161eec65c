/** Four bit-planes in system memory, and what writing one byte of them does to the pixels. */
module PlanarMemory {
  import opened Memory

  /** The size of a surface in pixels, and the bytes of one row of one plane. */
  datatype Geometry = Geometry(width: nat, height: nat, pitch: nat) {

    predicate Valid() { width <= 8 * pitch }

    function PlaneSize(): nat { Offset(height, pitch) }

    function Size(): nat { Offset(4, PlaneSize()) }

    /** Where byte `xb` of row `y` of plane `p` is. */
    function Index(p: nat, y: nat, xb: nat): (r: nat)
      requires p < 4 && y < height && xb < pitch
      ensures r < Size()
    {
      OffsetMonotone(y, height, pitch);
      OffsetMonotone(p, 4, PlaneSize());
      Offset(p, PlaneSize()) + Offset(y, pitch) + xb
    }
  }

  lemma IndexIsInjective(g: Geometry, p: nat, y: nat, xb: nat, p': nat, y': nat, xb': nat)
    requires p < 4 && y < g.height && xb < g.pitch && p' < 4 && y' < g.height && xb' < g.pitch
    requires g.Index(p, y, xb) == g.Index(p', y', xb')
    ensures p == p' && y == y' && xb == xb'
  {
    OffsetMonotone(y, g.height, g.pitch);
    OffsetMonotone(y', g.height, g.pitch);
    if p < p' {
      OffsetMonotone(p, p', g.PlaneSize());
    } else if p' < p {
      OffsetMonotone(p', p, g.PlaneSize());
    } else if y < y' {
      OffsetMonotone(y, y', g.pitch);
    } else if y' < y {
      OffsetMonotone(y', y, g.pitch);
    }
  }

  // ----- Bits of a byte

  /** `0x80 >> k` */
  function Mask(k: nat): bv8
    requires k < 8
  {
    match k
    case 0 => 0x80
    case 1 => 0x40
    case 2 => 0x20
    case 3 => 0x10
    case 4 => 0x08
    case 5 => 0x04
    case 6 => 0x02
    case 7 => 0x01
  }

  /** Bit `k` of a byte, counted from its high end, as pixels are. */
  predicate HasBit(b: bv8, k: nat)
    requires k < 8
  {
    b & Mask(k) != 0
  }

  /** What `|= mask` or `&= ~mask` makes of a byte. */
  function Blend(b: bv8, mask: bv8, on: bool): bv8
  {
    if on then b | mask else b & !mask
  }

  lemma BlendBit(b: bv8, mask: bv8, on: bool, k: nat)
    requires k < 8
    ensures HasBit(Blend(b, mask, on), k) == if HasBit(mask, k) then on else HasBit(b, k)
  {
    OneBit(Mask(k), k);
    BlendBits(b, mask, Mask(k));
  }

  lemma OneBit(m: bv8, k: nat)
    requires k < 8 && m == Mask(k)
    ensures m == 0x80 || m == 0x40 || m == 0x20 || m == 0x10 || m == 0x08 || m == 0x04 || m == 0x02 || m == 0x01
  {
  }

  lemma BlendBits(b: bv8, mask: bv8, m: bv8)
    requires m == 0x80 || m == 0x40 || m == 0x20 || m == 0x10 || m == 0x08 || m == 0x04 || m == 0x02 || m == 0x01
    ensures (b | mask) & m != 0 <==> b & m != 0 || mask & m != 0
    ensures b & !mask & m != 0 <==> b & m != 0 && mask & m == 0
  {
  }

  lemma MaskBit(j: nat, k: nat)
    requires j < 8 && k < 8
    ensures HasBit(Mask(j), k) <==> j == k
  {
  }

  lemma SameBits(a: bv8, b: bv8)
    requires forall k: nat :: k < 8 ==> HasBit(a, k) == HasBit(b, k)
    ensures a == b
  {
    assert HasBit(a, 0) == HasBit(b, 0) && HasBit(a, 1) == HasBit(b, 1);
    assert HasBit(a, 2) == HasBit(b, 2) && HasBit(a, 3) == HasBit(b, 3);
    assert HasBit(a, 4) == HasBit(b, 4) && HasBit(a, 5) == HasBit(b, 5);
    assert HasBit(a, 6) == HasBit(b, 6) && HasBit(a, 7) == HasBit(b, 7);
  }

  // ----- Bits of a surface

  /** The bit of plane `p` at column `x` of row `y`; the columns past the width fill up the last byte of a row. */
  ghost predicate BitAt(mem: seq<bv8>, g: Geometry, p: nat, x: nat, y: nat)
    requires |mem| == g.Size() && p < 4 && x < 8 * g.pitch && y < g.height
  {
    HasBit(mem[g.Index(p, y, x / 8)], x % 8)
  }

  lemma MaskIsShifted(k: nat)
    requires k < 8
    ensures Mask(k) == (0x80 as bv8) >> k
  {
  }

  /** Planes follow each other, rows follow each other in a plane, and the leftmost pixel is the highest bit of its byte. */
  lemma BitAddress(mem: seq<bv8>, g: Geometry, p: nat, x: nat, y: nat)
    requires |mem| == g.Size() && p < 4 && x < 8 * g.pitch && y < g.height
    ensures p * (g.pitch * g.height) + y * g.pitch + x / 8 < |mem|
    ensures BitAt(mem, g, p, x, y)
       <==> mem[p * (g.pitch * g.height) + y * g.pitch + x / 8] & ((0x80 as bv8) >> (x % 8)) != 0
  {
    OffsetIsProduct(g.height, g.pitch);
    OffsetIsProduct(y, g.pitch);
    OffsetIsProduct(p, g.PlaneSize());
    assert p * (g.pitch * g.height) + y * g.pitch + x / 8 == g.Index(p, y, x / 8);
    MaskIsShifted(x % 8);
  }

  /** The colour index of a pixel: one bit from each plane. */
  ghost function Pixel(mem: seq<bv8>, g: Geometry, x: nat, y: nat): (r: nat)
    requires |mem| == g.Size() && x < 8 * g.pitch && y < g.height
    ensures r < 16
  {
    (if BitAt(mem, g, 0, x, y) then 1 else 0) + (if BitAt(mem, g, 1, x, y) then 2 else 0)
    + (if BitAt(mem, g, 2, x, y) then 4 else 0) + (if BitAt(mem, g, 3, x, y) then 8 else 0)
  }

  /** Plane bit `p` of a colour index: `index & (1 << p)`. */
  predicate IndexBit(index: nat, p: nat)
    requires p < 4
  {
    match p
    case 0 => index % 2 == 1
    case 1 => index / 2 % 2 == 1
    case 2 => index / 2 / 2 % 2 == 1
    case 3 => index / 2 / 2 / 2 % 2 == 1
  }

  function BlendByte(mem: seq<bv8>, g: Geometry, p: nat, y: nat, xb: nat, mask: bv8, on: bool): seq<bv8>
    requires |mem| == g.Size() && p < 4 && y < g.height && xb < g.pitch
  {
    var i := g.Index(p, y, xb);
    mem[i := Blend(mem[i], mask, on)]
  }

  /** Blending one byte changes just the bits under the mask, in one byte of one plane. */
  lemma BlendByteBits(mem: seq<bv8>, g: Geometry, p: nat, y: nat, xb: nat, mask: bv8, on: bool,
                      p': nat, x': nat, y': nat)
    requires |mem| == g.Size() && p < 4 && y < g.height && xb < g.pitch
    requires p' < 4 && x' < 8 * g.pitch && y' < g.height
    ensures BitAt(BlendByte(mem, g, p, y, xb, mask, on), g, p', x', y')
         == if p' == p && y' == y && x' / 8 == xb && HasBit(mask, x' % 8) then on else BitAt(mem, g, p', x', y')
  {
    var i := g.Index(p, y, xb);
    BlendBit(mem[i], mask, on, x' % 8);
    if g.Index(p', y', x' / 8) == i {
      IndexIsInjective(g, p, y, xb, p', y', x' / 8);
    }
  }

  /** Memories with the same bits are the same. */
  lemma BitsDetermine(a: seq<bv8>, b: seq<bv8>, g: Geometry)
    requires |a| == |b| == g.Size()
    requires forall p: nat, x: nat, y: nat :: p < 4 && x < 8 * g.pitch && y < g.height
                                              ==> BitAt(a, g, p, x, y) == BitAt(b, g, p, x, y)
    ensures a == b
  {
    forall i | 0 <= i < |a|
      ensures a[i] == b[i]
    {
      var p, y, xb := Coordinates(g, i);
      forall k: nat | k < 8
        ensures HasBit(a[i], k) == HasBit(b[i], k)
      {
        var x := 8 * xb + k;
        assert x / 8 == xb && x % 8 == k;
        assert BitAt(a, g, p, x, y) == BitAt(b, g, p, x, y);
      }
      SameBits(a[i], b[i]);
    }
  }

  /** Every byte belongs to some plane, row and column. */
  lemma Coordinates(g: Geometry, i: nat) returns (p: nat, y: nat, xb: nat)
    requires i < g.Size()
    ensures p < 4 && y < g.height && xb < g.pitch && g.Index(p, y, xb) == i
  {
    p := RowOf(i, g.PlaneSize(), 4);
    y := RowOf(i - Offset(p, g.PlaneSize()), g.pitch, g.height);
    xb := i - Offset(p, g.PlaneSize()) - Offset(y, g.pitch);
  }

  /** Copying bytes into a row of a plane changes just the columns of those bytes. */
  lemma SpliceBits(mem: seq<bv8>, g: Geometry, p: nat, y: nat, xb: nat, part: seq<bv8>, p': nat, x': nat, y': nat)
    requires |mem| == g.Size() && p < 4 && y < g.height && xb + |part| <= g.pitch && xb < g.pitch
    requires p' < 4 && x' < 8 * g.pitch && y' < g.height
    ensures g.Index(p, y, xb) + |part| <= |mem|
    ensures BitAt(Splice(mem, g.Index(p, y, xb), part), g, p', x', y')
         == if p' == p && y' == y && xb <= x' / 8 < xb + |part| then HasBit(part[x' / 8 - xb], x' % 8)
            else BitAt(mem, g, p', x', y')
  {
    var i := g.Index(p, y, xb);
    if |part| > 0 {
      assert g.Index(p, y, xb + |part| - 1) == i + |part| - 1;
    }
    var i' := g.Index(p', y', x' / 8);
    if i <= i' < i + |part| {
      IndexIsInjective(g, p, y, xb + (i' - i), p', y', x' / 8);
    }
  }
}
