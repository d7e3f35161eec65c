/** The painter and the line reader of planar surfaces in system memory, eight pixels to a byte. */
module PlanarPainter {
  import opened Bits
  import opened Memory
  import opened Numbers
  import opened PlanarMemory

  /** The bits of `cur` in the region are those of `index`; all others are as in `before`. */
  ghost predicate Painted(before: seq<bv8>, cur: seq<bv8>, g: Geometry, x0: nat, x1: nat, y0: nat, y1: nat, index: nat)
    requires |before| == |cur| == g.Size()
  {
    forall p: nat, x: nat, y: nat :: p < 4 && x < 8 * g.pitch && y < g.height ==>
      BitAt(cur, g, p, x, y) == if x0 <= x < x1 && y0 <= y < y1 then IndexBit(index, p) else BitAt(before, g, p, x, y)
  }

  /** The same with row `y1` painted from `x0` to `xc`, too. */
  ghost predicate PaintedTo(before: seq<bv8>, cur: seq<bv8>, g: Geometry, x0: nat, x1: nat, y0: nat, y1: nat, xc: nat,
                            index: nat)
    requires |before| == |cur| == g.Size()
  {
    forall p: nat, x: nat, y: nat :: p < 4 && x < 8 * g.pitch && y < g.height ==>
      BitAt(cur, g, p, x, y) == if x0 <= x && ((x < x1 && y0 <= y < y1) || (x < xc && y == y1)) then IndexBit(index, p)
                                else BitAt(before, g, p, x, y)
  }

  /** The bits under the mask in one byte of the first `n` planes are those of `index`. */
  ghost predicate Blended(before: seq<bv8>, cur: seq<bv8>, g: Geometry, n: nat, y: nat, xb: nat, mask: bv8, index: nat)
    requires |before| == |cur| == g.Size()
  {
    forall p: nat, x: nat, y': nat :: p < 4 && x < 8 * g.pitch && y' < g.height ==>
      BitAt(cur, g, p, x, y') == if p < n && y' == y && x / 8 == xb && HasBit(mask, x % 8) then IndexBit(index, p)
                                 else BitAt(before, g, p, x, y')
  }

  lemma BlendNext(before: seq<bv8>, cur: seq<bv8>, next: seq<bv8>, g: Geometry, p: nat, y: nat, xb: nat, mask: bv8, index: nat)
    requires |before| == |cur| == g.Size() && p < 4 && y < g.height && xb < g.pitch
    requires Blended(before, cur, g, p, y, xb, mask, index) && next == BlendByte(cur, g, p, y, xb, mask, IndexBit(index, p))
    ensures |next| == g.Size() && Blended(before, next, g, p + 1, y, xb, mask, index)
  {
    forall p': nat, x: nat, y': nat | p' < 4 && x < 8 * g.pitch && y' < g.height
      ensures BitAt(next, g, p', x, y')
           == if p' < p + 1 && y' == y && x / 8 == xb && HasBit(mask, x % 8) then IndexBit(index, p')
              else BitAt(before, g, p', x, y')
    {
      BlendByteBits(cur, g, p, y, xb, mask, IndexBit(index, p), p', x, y');
    }
  }

  /** Painting a rectangle gives its pixels the low four bits of the index, and no other pixel changes. */
  lemma PaintedPixels(before: seq<bv8>, cur: seq<bv8>, g: Geometry, x0: nat, x1: nat, y0: nat, y1: nat, index: nat,
                      x: nat, y: nat)
    requires |before| == |cur| == g.Size() && Painted(before, cur, g, x0, x1, y0, y1, index)
    requires x < 8 * g.pitch && y < g.height
    ensures Pixel(cur, g, x, y) == if x0 <= x < x1 && y0 <= y < y1 then index % 16 else Pixel(before, g, x, y)
  {
    assert forall p: nat :: p < 4 ==>
      BitAt(cur, g, p, x, y) == if x0 <= x < x1 && y0 <= y < y1 then IndexBit(index, p) else BitAt(before, g, p, x, y);
    LowFourBits(index);
  }

  /** The bit of a colour index that plane `p` takes. */
  lemma IndexBitIs(index: nat, p: nat)
    requires p < 4
    ensures IndexBit(index, p) <==> index / Pow2(p) % 2 == 1
  {
    NthBitIs(index, p);
    assert NthBit(index, p) == 1 <==> IndexBit(index, p) by {
      if p == 1 {
        assert NthBit(index, 1) == index / 2 % 2;
      } else if p == 2 {
        assert NthBit(index, 2) == NthBit(index / 2, 1);
      } else if p == 3 {
        assert NthBit(index, 3) == NthBit(index / 2, 2);
      }
    }
  }

  /** What painting leaves in the bytes of the memory. */
  lemma PaintedBytes(before: seq<bv8>, cur: seq<bv8>, g: Geometry, x0: nat, x1: nat, y0: nat, y1: nat, index: nat,
                     p: nat, x: nat, y: nat)
    requires |before| == |cur| == g.Size() && Painted(before, cur, g, x0, x1, y0, y1, index)
    requires p < 4 && x < 8 * g.pitch && y < g.height
    ensures p * (g.pitch * g.height) + y * g.pitch + x / 8 < |cur|
    ensures var i, bit := p * (g.pitch * g.height) + y * g.pitch + x / 8, (0x80 as bv8) >> (x % 8);
      cur[i] & bit != 0 <==> if x0 <= x < x1 && y0 <= y < y1 then index / Pow2(p) % 2 == 1 else before[i] & bit != 0
  {
    BitAddress(before, g, p, x, y);
    BitAddress(cur, g, p, x, y);
    IndexBitIs(index, p);
    assert BitAt(cur, g, p, x, y) == if x0 <= x < x1 && y0 <= y < y1 then IndexBit(index, p) else BitAt(before, g, p, x, y);
  }

  /** What painting leaves is determined, whichever way it is done. */
  lemma PaintIsUnique(before: seq<bv8>, a: seq<bv8>, b: seq<bv8>, g: Geometry, x0: nat, x1: nat, y0: nat, y1: nat, index: nat)
    requires |before| == |a| == |b| == g.Size()
    requires Painted(before, a, g, x0, x1, y0, y1, index) && Painted(before, b, g, x0, x1, y0, y1, index)
    ensures a == b
  {
    BitsDetermine(a, b, g);
  }

  lemma LowFourBits(index: nat)
    ensures index % 16 == index % 2 + 2 * (index / 2 % 2) + 4 * (index / 2 / 2 % 2) + 8 * (index / 2 / 2 / 2 % 2)
  {
    var h1 := index / 2;
    var h2 := h1 / 2;
    var h3 := h2 / 2;
    assert index == 16 * (h3 / 2) + (index % 2 + 2 * (h1 % 2) + 4 * (h2 % 2) + 8 * (h3 % 2));
  }

  /** The bits of the mask are `count` ones from `bitStart` on. */
  ghost predicate InRange(mask: bv8, bitStart: nat, count: nat)
  {
    forall k: nat :: k < 8 ==> (HasBit(mask, k) <==> bitStart <= k < bitStart + count)
  }

  /** `next` is `mask` with one more bit. */
  ghost predicate Extended(next: bv8, mask: bv8, j: nat)
  {
    forall k: nat :: k < 8 ==> (HasBit(next, k) <==> HasBit(mask, k) || k == j)
  }

  lemma ExtendRange(mask: bv8, bitStart: nat, count: nat, next: bv8)
    requires bitStart + count < 8 && InRange(mask, bitStart, count) && Extended(next, mask, bitStart + count)
    ensures InRange(next, bitStart, count + 1)
  {
  }

  lemma AddBit(mask: bv8, j: nat)
    requires j < 8
    ensures Extended(Blend(mask, Mask(j), true), mask, j)
  {
    forall k: nat | k < 8
      ensures HasBit(Blend(mask, Mask(j), true), k) <==> HasBit(mask, k) || k == j
    {
      MaskBit(j, k);
      BlendBit(mask, Mask(j), true, k);
    }
  }

  /** How many pixels of a row the line reader delivers. */
  function Run(g: Geometry, startX: nat, endX: nat): nat
  {
    if startX < endX && startX < g.width then Min(endX - startX, g.width - startX) else 0
  }

  /** The columns that are delivered are those wanted that the surface has. */
  lemma RunIs(g: Geometry, startX: nat, endX: nat, k: nat)
    ensures k < Run(g, startX, endX) <==> startX + k < endX && startX + k < g.width
  {
  }

  /** How many of them lie before column `x`. */
  function ReadBefore(startX: nat, runWidth: nat, x: nat): nat
  {
    if x <= startX then 0 else Min(runWidth, x - startX)
  }

  /** Bit `k` of one byte of each plane, put together. */
  function ColourOf(p0: bv8, p1: bv8, p2: bv8, p3: bv8, k: nat): Byte
    requires k < 8
  {
    (if HasBit(p0, k) then 1 else 0) + (if HasBit(p1, k) then 2 else 0)
    + (if HasBit(p2, k) then 4 else 0) + (if HasBit(p3, k) then 8 else 0)
  }

  lemma PixelOfByte(mem: seq<bv8>, g: Geometry, y: nat, b: nat, k: nat)
    requires |mem| == g.Size() && y < g.height && b < g.pitch && k < 8
    ensures Pixel(mem, g, b * 8 + k, y)
         == ColourOf(mem[g.Index(0, y, b)], mem[g.Index(1, y, b)], mem[g.Index(2, y, b)], mem[g.Index(3, y, b)], k)
  {
    assert (b * 8 + k) / 8 == b && (b * 8 + k) % 8 == k;
  }

  /** The first `count` elements of the buffer are the pixels from `startX` on, the others as before. */
  ghost predicate Read(mem: seq<bv8>, g: Geometry, buffer: seq<Byte>, before: seq<Byte>, startX: nat, line: nat, count: nat)
    requires |mem| == g.Size() && line < g.height && (count > 0 ==> startX + count <= 8 * g.pitch)
    requires count <= |buffer| == |before|
  {
    && (forall k: nat :: k < count ==> buffer[k] == Pixel(mem, g, startX + k, line))
    && (forall k: nat :: count <= k < |buffer| ==> buffer[k] == before[k])
  }

  /** The next wanted pixel goes to the next place in the buffer. */
  lemma ReadNext(mem: seq<bv8>, g: Geometry, buffer: seq<Byte>, before: seq<Byte>, startX: nat, line: nat, count: nat,
                 b: nat, k: nat, c: Byte)
    requires |mem| == g.Size() && line < g.height && b < g.pitch && k < 8 && count < |buffer| == |before|
    requires startX + count == b * 8 + k
    requires c == ColourOf(mem[g.Index(0, line, b)], mem[g.Index(1, line, b)],
                           mem[g.Index(2, line, b)], mem[g.Index(3, line, b)], k)
    requires Read(mem, g, buffer, before, startX, line, count)
    ensures Read(mem, g, buffer[count := c], before, startX, line, count + 1)
  {
    PixelOfByte(mem, g, line, b, k);
  }

  /** What the line reader delivers from inside a painted rectangle. */
  lemma ReadAfterPaint(before: seq<bv8>, mem: seq<bv8>, g: Geometry, x0: nat, x1: nat, y0: nat, y1: nat, index: nat,
                       buffer: seq<Byte>, oldBuffer: seq<Byte>, startX: nat, line: nat, count: nat, k: nat)
    requires |before| == |mem| == g.Size() && Painted(before, mem, g, x0, x1, y0, y1, index)
    requires y0 <= line < y1 <= g.height && x0 <= startX && startX + count <= x1 <= 8 * g.pitch
    requires k < count <= |buffer| == |oldBuffer| && Read(mem, g, buffer, oldBuffer, startX, line, count)
    ensures buffer[k] == index % 16
  {
    PaintedPixels(before, mem, g, x0, x1, y0, y1, index, startX + k, line);
  }

  class PlanarSurface {
    const g: Geometry
    const ram: array<bv8>

    ghost predicate Valid()
    {
      g.Valid() && ram.Length == g.Size()
    }

    constructor (width: nat, height: nat, pitch: nat)
      requires width <= 8 * pitch
      ensures Valid() && g == Geometry(width, height, pitch) && fresh(ram)
    {
      g := Geometry(width, height, pitch);
      ram := new bv8[Geometry(width, height, pitch).Size()](_ => 0);
    }

    method BlendAt(i: nat, mask: bv8, on: bool)
      requires i < ram.Length
      modifies ram
      ensures ram[..] == old(ram[..])[i := Blend(old(ram[i]), mask, on)]
    {
      if on {
        ram[i] := ram[i] | mask;
      } else {
        ram[i] := ram[i] & !mask;
      }
    }

    /** The loop over the planes that sets or clears the bits under the mask. */
    method BlendPlanes(y: nat, xb: nat, mask: bv8, index: Byte)
      requires Valid() && y < g.height && xb < g.pitch
      modifies ram
      ensures Blended(old(ram[..]), ram[..], g, 4, y, xb, mask, index)
    {
      var planeSize := g.pitch * g.height;
      var off := y * g.pitch + xb;
      OffsetIsProduct(g.height, g.pitch);
      OffsetIsProduct(y, g.pitch);
      ghost var before := ram[..];
      for p := 0 to 4
        invariant Blended(before, ram[..], g, p, y, xb, mask, index)
      {
        OffsetIsProduct(p, planeSize);
        var i := p * planeSize + off;
        assert i == g.Index(p, y, xb);
        ghost var next := BlendByte(ram[..], g, p, y, xb, mask, IndexBit(index, p));
        BlendNext(before, ram[..], next, g, p, y, xb, mask, index);
        BlendAt(i, mask, IndexBit(index, p));
      }
    }

    /** Pixels outside the surface are ignored. */
    method WritePixelPlanar(x: int, y: int, index: Byte)
      requires Valid()
      modifies ram
      ensures if 0 <= x < g.width && 0 <= y < g.height then Painted(old(ram[..]), ram[..], g, x, x + 1, y, y + 1, index)
              else ram[..] == old(ram[..])
    {
      if x < 0 || x >= g.width || y < 0 || y >= g.height {
        return;
      }
      var byteOffset := x / 8;
      var bitIndex := x % 8;
      var bit := Mask(bitIndex);
      forall k: nat | k < 8 {
        MaskBit(bitIndex, k);
      }
      BlendPlanes(y, byteOffset, bit, index);
    }

    /** The mask for `count` pixels from `bitStart` on. */
    method RangeMask(bitStart: nat, count: nat) returns (mask: bv8)
      requires bitStart + count <= 8
      ensures InRange(mask, bitStart, count)
    {
      mask := 0;
      for i := 0 to count
        invariant InRange(mask, bitStart, i)
      {
        AddBit(mask, bitStart + i);
        ExtendRange(mask, bitStart, i, Blend(mask, Mask(bitStart + i), true));
        mask := mask | Mask(bitStart + i);
      }
    }

    /**
     Unpacks columns `startX` to `endX` of a row into colour indices. Nothing
     is written for a row below the surface or for columns right of it.
     */
    method ReadLineInto(line: nat, startX: nat, endX: nat, targetBuffer: array<Byte>)
      requires Valid() && targetBuffer as object != ram
      requires line < g.height ==> Run(g, startX, endX) <= targetBuffer.Length
      modifies targetBuffer
      ensures if line < g.height then Read(ram[..], g, targetBuffer[..], old(targetBuffer[..]), startX, line, Run(g, startX, endX))
              else targetBuffer[..] == old(targetBuffer[..])
    {
      if line >= g.height || startX >= endX {
        return;
      }
      var runWidth := Run(g, startX, endX);
      var startByte := Min(g.pitch, startX / 8);
      var endByte := Min(g.pitch, (endX + 7) / 8);
      var count := 0;
      for b := startByte to Max(startByte, endByte)
        invariant count == ReadBefore(startX, runWidth, 8 * b)
        invariant Read(ram[..], g, targetBuffer[..], old(targetBuffer[..]), startX, line, count)
      {
        count := ReadByte(line, startX, endX, runWidth, b, count, targetBuffer, old(targetBuffer[..]));
      }
    }

    /** The pixels of one byte of each plane, if they are wanted. */
    method ReadByte(line: nat, startX: nat, endX: nat, runWidth: nat, b: nat, count0: nat, targetBuffer: array<Byte>,
                    ghost before: seq<Byte>) returns (count: nat)
      requires Valid() && targetBuffer as object != ram
      requires line < g.height && b < g.pitch && runWidth <= targetBuffer.Length == |before|
      requires startX < endX && runWidth == Run(g, startX, endX) && count0 == ReadBefore(startX, runWidth, 8 * b)
      requires Read(ram[..], g, targetBuffer[..], before, startX, line, count0)
      modifies targetBuffer
      ensures count == ReadBefore(startX, runWidth, 8 * b + 8)
      ensures Read(ram[..], g, targetBuffer[..], before, startX, line, count)
    {
      ghost var mem := ram[..];
      var p0, p1, p2, p3 :=
        ram[g.Index(0, line, b)], ram[g.Index(1, line, b)], ram[g.Index(2, line, b)], ram[g.Index(3, line, b)];
      assert p0 == mem[g.Index(0, line, b)] && p1 == mem[g.Index(1, line, b)];
      assert p2 == mem[g.Index(2, line, b)] && p3 == mem[g.Index(3, line, b)];
      count := count0;
      for k := 0 to 8
        invariant ram[..] == mem && count == ReadBefore(startX, runWidth, 8 * b + k)
        invariant Read(mem, g, targetBuffer[..], before, startX, line, count)
      {
        var absoluteX := b * 8 + k;
        if !(absoluteX < startX || absoluteX >= endX || count >= runWidth) {
          var colour := ColourOf(p0, p1, p2, p3, k);
          ReadNext(mem, g, targetBuffer[..], before, startX, line, count, b, k, colour);
          targetBuffer[count] := colour;
          count := count + 1;
        }
      }
    }

    /** The solid interior of a rectangle, as many pixels at a time as share a byte. */
    method FillRect(left: nat, top: nat, width: nat, height: nat, brushIndex: Byte)
      requires Valid()
      modifies ram
      ensures Painted(old(ram[..]), ram[..], g, left, Min(g.width, left + width), top, Min(g.height, top + height), brushIndex)
    {
      var startX, endX := left, Min(g.width, left + width);
      var startY, endY := top, Min(g.height, top + height);
      if startX >= endX || startY >= endY {
        return;
      }
      ghost var before := ram[..];
      for y := startY to endY
        invariant PaintedTo(before, ram[..], g, startX, endX, startY, y, startX, brushIndex)
      {
        var x := startX;
        while x < endX
          invariant startX <= x <= endX
          invariant PaintedTo(before, ram[..], g, startX, endX, startY, y, x, brushIndex)
        {
          var bitStart := x % 8;
          var count := Min(8 - bitStart, endX - x);
          var mask := RangeMask(bitStart, count);
          ghost var cur := ram[..];
          BlendPlanes(y, x / 8, mask, brushIndex);
          PaintBytes(before, cur, ram[..], g, startX, endX, startY, y, x, count, mask, brushIndex);
          x := x + count;
        }
      }
    }

    /** The same rectangle one pixel at a time: the slow form the fill stands for. */
    method FillByPixels(left: nat, top: nat, width: nat, height: nat, brushIndex: Byte)
      requires Valid()
      modifies ram
      ensures Painted(old(ram[..]), ram[..], g, left, Min(g.width, left + width), top, Min(g.height, top + height), brushIndex)
    {
      var endX, endY := Min(g.width, left + width), Min(g.height, top + height);
      ghost var before := ram[..];
      for y := top to Max(top, endY)
        invariant PaintedTo(before, ram[..], g, left, endX, top, y, left, brushIndex)
      {
        for x := left to Max(left, endX)
          invariant PaintedTo(before, ram[..], g, left, endX, top, y, x, brushIndex)
        {
          WritePixelPlanar(x, y, brushIndex);
        }
      }
    }
  }

  lemma PaintBytes(before: seq<bv8>, cur: seq<bv8>, next: seq<bv8>, g: Geometry, x0: nat, x1: nat, y0: nat, y: nat, xc: nat,
                   count: nat, mask: bv8, index: nat)
    requires |before| == |cur| == |next| == g.Size() && x0 <= xc
    requires PaintedTo(before, cur, g, x0, x1, y0, y, xc, index)
    requires Blended(cur, next, g, 4, y, xc / 8, mask, index)
    requires xc % 8 + count <= 8 && InRange(mask, xc % 8, count)
    ensures PaintedTo(before, next, g, x0, x1, y0, y, xc + count, index)
  {
    forall p: nat, x: nat, y': nat | p < 4 && x < 8 * g.pitch && y' < g.height
      ensures BitAt(next, g, p, x, y')
           == if x0 <= x && ((x < x1 && y0 <= y' < y) || (x < xc + count && y' == y)) then IndexBit(index, p)
              else BitAt(before, g, p, x, y')
    {
      assert x / 8 == xc / 8 && HasBit(mask, x % 8) <==> xc <= x < xc + count;
    }
  }
}
