/** Copying a rectangle from one planar surface in system memory to another. */
module PlanarBlit {
  import opened Bits
  import opened Memory
  import opened Numbers
  import opened PlanarMemory
  import opened PlanarPainter

  /** The target columns and rows of a copy after clipping, and the source pixel that lands on the first of them. */
  datatype Clip = Clip(x0: nat, x1: nat, y0: nat, y1: nat, sx: nat, sy: nat) {

    /** Both rectangles lie inside their surfaces. */
    predicate Fits(g: Geometry, gs: Geometry)
    {
      && x0 < x1 <= 8 * g.pitch && y0 < y1 <= g.height
      && sx + (x1 - x0) <= 8 * gs.pitch && sy + (y1 - y0) <= gs.height
    }

    predicate Holds(x: nat, y: nat) { x0 <= x < x1 && y0 <= y < y1 }

    /** Bits are copied plane by plane, then row by row, then from left to right. */
    predicate Done(n: nat, row: nat, column: nat, p: nat, x: nat, y: nat)
    {
      Holds(x, y) && (p < n || (p == n && (y < row || (y == row && x < column))))
    }
  }

  /** The bits done so far are those of the source; all others are as before. */
  ghost predicate CopiedTo(before: seq<bv8>, cur: seq<bv8>, g: Geometry, src: seq<bv8>, gs: Geometry, c: Clip,
                           n: nat, row: nat, column: nat)
    requires |before| == |cur| == g.Size() && |src| == gs.Size() && c.Fits(g, gs)
  {
    forall p: nat, x: nat, y: nat :: p < 4 && x < 8 * g.pitch && y < g.height ==>
      BitAt(cur, g, p, x, y) == if c.Done(n, row, column, p, x, y)
                                then BitAt(src, gs, p, c.sx + (x - c.x0), c.sy + (y - c.y0))
                                else BitAt(before, g, p, x, y)
  }

  /** The clipped rectangle holds the bits of the source; all others are as before. */
  ghost predicate Copied(before: seq<bv8>, cur: seq<bv8>, g: Geometry, src: seq<bv8>, gs: Geometry, c: Clip)
    requires |before| == |cur| == g.Size() && |src| == gs.Size() && c.Fits(g, gs)
  {
    CopiedTo(before, cur, g, src, gs, c, 4, c.y0, c.x0)
  }

  /** What a copy leaves is determined, whichever way it is made. */
  lemma CopyIsUnique(before: seq<bv8>, a: seq<bv8>, b: seq<bv8>, g: Geometry, src: seq<bv8>, gs: Geometry, c: Clip)
    requires |before| == |a| == |b| == g.Size() && |src| == gs.Size() && c.Fits(g, gs)
    requires Copied(before, a, g, src, gs, c) && Copied(before, b, g, src, gs, c)
    ensures a == b
  {
    BitsDetermine(a, b, g);
  }

  /** Every pixel of the clipped rectangle is the source's, and no other pixel changes. */
  lemma CopiedPixels(before: seq<bv8>, cur: seq<bv8>, g: Geometry, src: seq<bv8>, gs: Geometry, c: Clip, x: nat, y: nat)
    requires |before| == |cur| == g.Size() && |src| == gs.Size() && c.Fits(g, gs)
    requires Copied(before, cur, g, src, gs, c) && x < 8 * g.pitch && y < g.height
    ensures Pixel(cur, g, x, y) == if c.Holds(x, y) then Pixel(src, gs, c.sx + (x - c.x0), c.sy + (y - c.y0))
                                   else Pixel(before, g, x, y)
  {
    assert forall p: nat :: p < 4 ==>
      BitAt(cur, g, p, x, y) == if c.Holds(x, y) then BitAt(src, gs, p, c.sx + (x - c.x0), c.sy + (y - c.y0))
                                else BitAt(before, g, p, x, y);
  }

  lemma PixelBit(mem: seq<bv8>, g: Geometry, p: nat, x: nat, y: nat)
    requires |mem| == g.Size() && p < 4 && x < 8 * g.pitch && y < g.height
    ensures IndexBit(Pixel(mem, g, x, y), p) == BitAt(mem, g, p, x, y)
  {
  }

  /** The next bit of a row. */
  lemma CopyBit(before: seq<bv8>, cur: seq<bv8>, g: Geometry, src: seq<bv8>, gs: Geometry, c: Clip,
                n: nat, row: nat, column: nat, on: bool)
    requires |before| == |cur| == g.Size() && |src| == gs.Size() && c.Fits(g, gs)
    requires n < 4 && c.Holds(column, row) && CopiedTo(before, cur, g, src, gs, c, n, row, column)
    requires on == BitAt(src, gs, n, c.sx + (column - c.x0), c.sy + (row - c.y0))
    ensures CopiedTo(before, BlendByte(cur, g, n, row, column / 8, Mask(column % 8), on), g, src, gs, c, n, row, column + 1)
  {
    var next := BlendByte(cur, g, n, row, column / 8, Mask(column % 8), on);
    forall p: nat, x: nat, y: nat | p < 4 && x < 8 * g.pitch && y < g.height
      ensures BitAt(next, g, p, x, y) == if p == n && y == row && x == column then on else BitAt(cur, g, p, x, y)
    {
      BlendByteBits(cur, g, n, row, column / 8, Mask(column % 8), on, p, x, y);
      MaskBit(column % 8, x % 8);
    }
  }

  /** The bytes of a whole row of one plane. */
  lemma CopyRow(before: seq<bv8>, cur: seq<bv8>, g: Geometry, src: seq<bv8>, gs: Geometry, c: Clip, n: nat, row: nat,
                part: seq<bv8>)
    requires |before| == |cur| == g.Size() && |src| == gs.Size() && c.Fits(g, gs)
    requires c.x0 % 8 == 0 && c.sx % 8 == 0 && (c.x1 - c.x0) % 8 == 0
    requires n < 4 && c.Holds(c.x0, row) && CopiedTo(before, cur, g, src, gs, c, n, row, c.x0)
    requires |part| == (c.x1 - c.x0) / 8
    requires forall k: nat :: k < |part| ==> part[k] == src[gs.Index(n, c.sy + (row - c.y0), c.sx / 8 + k)]
    ensures g.Index(n, row, c.x0 / 8) + |part| <= |cur|
    ensures CopiedTo(before, Splice(cur, g.Index(n, row, c.x0 / 8), part), g, src, gs, c, n, row + 1, c.x0)
  {
    SpliceBits(cur, g, n, row, c.x0 / 8, part, 0, 0, 0);
    var next := Splice(cur, g.Index(n, row, c.x0 / 8), part);
    forall p: nat, x: nat, y: nat | p < 4 && x < 8 * g.pitch && y < g.height
      ensures BitAt(next, g, p, x, y) == if c.Done(n, row + 1, c.x0, p, x, y)
                                         then BitAt(src, gs, p, c.sx + (x - c.x0), c.sy + (y - c.y0))
                                         else BitAt(before, g, p, x, y)
    {
      CopyRowBit(before, cur, g, src, gs, c, n, row, part, p, x, y);
    }
  }

  lemma CopyRowBit(before: seq<bv8>, cur: seq<bv8>, g: Geometry, src: seq<bv8>, gs: Geometry, c: Clip, n: nat, row: nat,
                   part: seq<bv8>, p: nat, x: nat, y: nat)
    requires |before| == |cur| == g.Size() && |src| == gs.Size() && c.Fits(g, gs)
    requires c.x0 % 8 == 0 && c.sx % 8 == 0 && (c.x1 - c.x0) % 8 == 0
    requires n < 4 && c.Holds(c.x0, row) && CopiedTo(before, cur, g, src, gs, c, n, row, c.x0)
    requires |part| == (c.x1 - c.x0) / 8 && g.Index(n, row, c.x0 / 8) + |part| <= |cur|
    requires forall k: nat :: k < |part| ==> part[k] == src[gs.Index(n, c.sy + (row - c.y0), c.sx / 8 + k)]
    requires p < 4 && x < 8 * g.pitch && y < g.height
    ensures BitAt(Splice(cur, g.Index(n, row, c.x0 / 8), part), g, p, x, y)
         == if c.Done(n, row + 1, c.x0, p, x, y) then BitAt(src, gs, p, c.sx + (x - c.x0), c.sy + (y - c.y0))
            else BitAt(before, g, p, x, y)
  {
    SpliceBits(cur, g, n, row, c.x0 / 8, part, p, x, y);
    var first := c.x0 / 8;
    assert first <= x / 8 < first + |part| <==> c.x0 <= x < c.x1;
    if p == n && y == row && c.x0 <= x < c.x1 {
      var s := c.sx + (x - c.x0);
      assert s / 8 == c.sx / 8 + (x / 8 - first) && s % 8 == x % 8;
    }
  }

  /** Where the bytes of a row begin; they follow each other. */
  lemma IndexOf(g: Geometry, p: nat, y: nat, xb: nat, n: nat)
    requires p < 4 && y < g.height && xb < g.pitch && xb + n <= g.pitch
    ensures p * (g.pitch * g.height) + y * g.pitch + xb == g.Index(p, y, xb)
    ensures g.Index(p, y, xb) + n <= g.Size()
  {
    OffsetIsProduct(g.height, g.pitch);
    OffsetIsProduct(y, g.pitch);
    OffsetIsProduct(p, g.PlaneSize());
    if n > 0 {
      assert g.Index(p, y, xb + (n - 1)) == g.Index(p, y, xb) + (n - 1);
    }
  }

  /** Where `n` bytes of a row begin. */
  method Address(g: Geometry, p: nat, y: nat, xb: nat, ghost n: nat) returns (a: nat)
    requires p < 4 && y < g.height && xb < g.pitch && xb + n <= g.pitch
    ensures a == g.Index(p, y, xb) && a + n <= g.Size()
  {
    IndexOf(g, p, y, xb, n);
    a := p * (g.pitch * g.height) + y * g.pitch + xb;
  }

  lemma PartOfRow(src: seq<bv8>, g: Geometry, p: nat, y: nat, xb: nat, part: seq<bv8>)
    requires |src| == g.Size() && p < 4 && y < g.height && xb < g.pitch && xb + |part| <= g.pitch
    requires g.Index(p, y, xb) + |part| <= |src| && part == src[g.Index(p, y, xb)..g.Index(p, y, xb) + |part|]
    ensures forall k: nat :: k < |part| ==> part[k] == src[g.Index(p, y, xb + k)]
  {
  }

  /** Four block copies a row, for rectangles made of whole bytes. */
  method BlitAligned(target: PlanarSurface, source: PlanarSurface, c: Clip)
    requires target.Valid() && source.Valid() && source.ram != target.ram
    requires c.Fits(target.g, source.g)
    requires c.x0 % 8 == 0 && c.sx % 8 == 0 && (c.x1 - c.x0) % 8 == 0
    modifies target.ram
    ensures Copied(old(target.ram[..]), target.ram[..], target.g, source.ram[..], source.g, c)
  {
    ghost var before := target.ram[..];
    var src := source.ram[..];
    for plane := 0 to 4
      invariant CopiedTo(before, target.ram[..], target.g, src, source.g, c, plane, c.y0, c.x0)
    {
      for y := c.y0 to c.y1
        invariant CopiedTo(before, target.ram[..], target.g, src, source.g, c, plane, y, c.x0)
      {
        BlitAlignedRow(target, source, c, plane, y, before);
      }
    }
  }

  method BlitAlignedRow(target: PlanarSurface, source: PlanarSurface, c: Clip, plane: nat, y: nat, ghost before: seq<bv8>)
    requires target.Valid() && source.Valid() && source.ram != target.ram && |before| == target.g.Size()
    requires c.Fits(target.g, source.g) && plane < 4 && c.Holds(c.x0, y)
    requires c.x0 % 8 == 0 && c.sx % 8 == 0 && (c.x1 - c.x0) % 8 == 0
    requires CopiedTo(before, target.ram[..], target.g, source.ram[..], source.g, c, plane, y, c.x0)
    modifies target.ram
    ensures CopiedTo(before, target.ram[..], target.g, source.ram[..], source.g, c, plane, y + 1, c.x0)
  {
    var bytes := (c.x1 - c.x0) / 8;
    var srcY := c.sy + (y - c.y0);
    var dst := Address(target.g, plane, y, c.x0 / 8, bytes);
    var from := Address(source.g, plane, srcY, c.sx / 8, bytes);
    ghost var part := source.ram[from..from + bytes];
    PartOfRow(source.ram[..], source.g, plane, srcY, c.sx / 8, part);
    CopyRow(before, target.ram[..], target.g, source.ram[..], source.g, c, plane, y, part);
    ghost var next := Splice(target.ram[..], dst, part);
    CopyN(source.ram[..], from, target.ram, dst, bytes);
    assert target.ram[..] == next;
  }

  /** The general way: read a row as colour indices, then set or clear each bit. */
  method BlitBitByBit(target: PlanarSurface, source: PlanarSurface, c: Clip)
    requires target.Valid() && source.Valid() && source.ram != target.ram
    requires c.Fits(target.g, source.g) && c.sx + (c.x1 - c.x0) <= source.g.width
    modifies target.ram
    ensures Copied(old(target.ram[..]), target.ram[..], target.g, source.ram[..], source.g, c)
  {
    ghost var before := target.ram[..];
    ghost var src := source.ram[..];
    var rowBuffer := new Byte[c.x1 - c.x0](_ => 0);
    for plane := 0 to 4
      invariant source.ram[..] == src
      invariant CopiedTo(before, target.ram[..], target.g, src, source.g, c, plane, c.y0, c.x0)
    {
      for y := c.y0 to c.y1
        invariant source.ram[..] == src
        invariant CopiedTo(before, target.ram[..], target.g, src, source.g, c, plane, y, c.x0)
      {
        source.ReadLineInto(c.sy + (y - c.y0), c.sx, c.sx + (c.x1 - c.x0), rowBuffer);
        BlitRow(target, rowBuffer, c, plane, y, before, src, source.g);
      }
    }
  }

  /** Sets or clears one bit of one plane. */
  method BlitBit(target: PlanarSurface, plane: nat, dx: nat, y: nat, on: bool)
    requires target.Valid() && plane < 4 && dx < 8 * target.g.pitch && y < target.g.height
    modifies target.ram
    ensures target.ram[..] == BlendByte(old(target.ram[..]), target.g, plane, y, dx / 8, Mask(dx % 8), on)
  {
    var at := Address(target.g, plane, y, dx / 8, 1);
    var bit := Mask(dx % 8);
    if on {
      target.ram[at] := target.ram[at] | bit;
    } else {
      target.ram[at] := target.ram[at] & !bit;
    }
  }

  method BlitRow(target: PlanarSurface, rowBuffer: array<Byte>, c: Clip, plane: nat, y: nat,
                 ghost before: seq<bv8>, ghost src: seq<bv8>, ghost gs: Geometry)
    requires target.Valid() && target.ram as object != rowBuffer && |before| == target.g.Size() && |src| == gs.Size()
    requires c.Fits(target.g, gs) && plane < 4 && c.Holds(c.x0, y) && rowBuffer.Length == c.x1 - c.x0
    requires forall k: nat :: k < rowBuffer.Length ==> rowBuffer[k] == Pixel(src, gs, c.sx + k, c.sy + (y - c.y0))
    requires CopiedTo(before, target.ram[..], target.g, src, gs, c, plane, y, c.x0)
    modifies target.ram
    ensures CopiedTo(before, target.ram[..], target.g, src, gs, c, plane, y + 1, c.x0)
  {
    for i := 0 to c.x1 - c.x0
      invariant CopiedTo(before, target.ram[..], target.g, src, gs, c, plane, y, c.x0 + i)
    {
      var on := IndexBit(rowBuffer[i], plane);
      PixelBit(src, gs, plane, c.sx + i, c.sy + (y - c.y0));
      var dx := c.x0 + i;
      CopyBit(before, target.ram[..], target.g, src, gs, c, plane, y, dx, on);
      ghost var next := BlendByte(target.ram[..], target.g, plane, y, dx / 8, Mask(dx % 8), on);
      BlitBit(target, plane, dx, y, on);
      assert target.ram[..] == next;
      assert dx + 1 == c.x0 + (i + 1);
    }
  }

  /** The copy of a source rectangle to a place on the target, cut off at the target's edges. */
  function ClipTo(g: Geometry, srcX: nat, srcY: nat, width: nat, height: nat, dstX: nat, dstY: nat): Clip
  {
    Clip(dstX, Min(g.width, dstX + width), dstY, Min(g.height, dstY + height), srcX, srcY)
  }

  /** The clipped rectangle holds what was copied, if anything is left of it; otherwise nothing changes. */
  ghost predicate Drawn(before: seq<bv8>, cur: seq<bv8>, g: Geometry, src: seq<bv8>, gs: Geometry, c: Clip)
    requires |before| == |cur| == g.Size() && |src| == gs.Size()
  {
    if c.x0 < c.x1 && c.y0 < c.y1 then c.Fits(g, gs) && Copied(before, cur, g, src, gs, c) else cur == before
  }

  /** Which pixels a drawing changes, and where each of them comes from. */
  lemma DrawnPixels(before: seq<bv8>, cur: seq<bv8>, g: Geometry, src: seq<bv8>, gs: Geometry,
                    srcX: nat, srcY: nat, width: nat, height: nat, dstX: nat, dstY: nat, x: nat, y: nat)
    requires |before| == |cur| == g.Size() && |src| == gs.Size() && g.Valid() && gs.Valid()
    requires srcX + width <= gs.width && srcY + height <= gs.height && x < 8 * g.pitch && y < g.height
    requires Drawn(before, cur, g, src, gs, ClipTo(g, srcX, srcY, width, height, dstX, dstY))
    ensures Pixel(cur, g, x, y) ==
      if dstX <= x < dstX + width && x < g.width && dstY <= y < dstY + height
      then Pixel(src, gs, srcX + (x - dstX), srcY + (y - dstY)) else Pixel(before, g, x, y)
  {
    var c := ClipTo(g, srcX, srcY, width, height, dstX, dstY);
    if c.x0 < c.x1 && c.y0 < c.y1 {
      CopiedPixels(before, cur, g, src, gs, c, x, y);
    }
  }

  /** Both ways leave the same memory, so which one is taken does not show. */
  method DrawSurface(target: PlanarSurface, source: PlanarSurface,
                     srcX: nat, srcY: nat, width: nat, height: nat, dstX: nat, dstY: nat)
    requires target.Valid() && source.Valid() && source.ram != target.ram
    requires srcX + width <= source.g.width && srcY + height <= source.g.height
    modifies target.ram
    ensures Drawn(old(target.ram[..]), target.ram[..], target.g, source.ram[..], source.g,
                  ClipTo(target.g, srcX, srcY, width, height, dstX, dstY))
  {
    var c := ClipTo(target.g, srcX, srcY, width, height, dstX, dstY);
    if c.x0 >= c.x1 || c.y0 >= c.y1 {
      return;
    }
    if c.x0 % 8 == 0 && c.sx % 8 == 0 && (c.x1 - c.x0) % 8 == 0 {
      BlitAligned(target, source, c);
      return;
    }
    BlitBitByBit(target, source, c);
  }
}
