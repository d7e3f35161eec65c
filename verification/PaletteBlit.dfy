/** Copies between surfaces with 8-bit palettes, by a colour map and by way of 32-bit pixels. */
module PaletteBlit {
  import opened Bits
  import opened Memory
  import opened Colours

  type Palette = p: seq<Color> | |p| <= 256

  // ----- The nearest colour

  function Square(d: int): nat { if d < 0 then (0 - d) * (0 - d) else d * d }

  function Distance(a: Color, b: Color): (d: nat)
  {
    Square((a.red as int) - b.red) + Square((a.green as int) - b.green) + Square((a.blue as int) - b.blue)
  }

  /** The sum of the squares of the three differences. */
  lemma DistanceIs(a: Color, b: Color)
    ensures var r, g, u := (a.red as int) - b.red, (a.green as int) - b.green, (a.blue as int) - b.blue;
      Distance(a, b) == r * r + g * g + u * u
  {
    SquareIs((a.red as int) - b.red);
    SquareIs((a.green as int) - b.green);
    SquareIs((a.blue as int) - b.blue);
  }

  lemma SquareIs(d: int)
    ensures Square(d) == d * d
  {
  }

  /** Distances fit in 32 bits. */
  lemma DistanceFits(a: Color, b: Color)
    ensures Distance(a, b) <= 3 * 255 * 255 < 0x8000_0000
  {
    SquareFits((a.red as int) - b.red);
    SquareFits((a.green as int) - b.green);
    SquareFits((a.blue as int) - b.blue);
  }

  lemma SquareFits(d: int)
    requires -255 <= d <= 255
    ensures Square(d) <= 255 * 255
  {
    SquareUpTo(if d < 0 then -d else d, 255);
  }

  lemma SquareUpTo(m: nat, n: nat)
    requires m <= n
    ensures m * m <= n * n
  {
    assert m * m <= m * n;
    assert m * n <= n * n;
  }

  lemma DistanceZero(a: Color, b: Color)
    ensures Distance(a, b) == 0 <==> a == b
  {
    SquareZero((a.red as int) - b.red);
    SquareZero((a.green as int) - b.green);
    SquareZero((a.blue as int) - b.blue);
  }

  lemma SquareZero(d: int)
    ensures Square(d) == 0 <==> d == 0
  {
  }

  /** The first of the colours nearest to `x`; zero for an empty palette. */
  ghost predicate IsClosest(p: seq<Color>, x: Color, i: nat)
  {
    if p == [] then i == 0
    else
      && i < |p|
      && (forall j: nat :: j < |p| ==> Distance(p[i], x) <= Distance(p[j], x))
      && (forall j: nat :: j < i ==> Distance(p[i], x) < Distance(p[j], x))
  }

  /** The same, found from the front. */
  function Closest(p: seq<Color>, x: Color): (i: nat)
    ensures i == 0 || i < |p|
  {
    if |p| <= 1 then 0
    else
      var last := |p| - 1;
      var i := Closest(p[..last], x);
      if Distance(p[last], x) < Distance(p[i], x) then last else i
  }

  lemma {:induction false} ClosestIsFirstNearest(p: seq<Color>, x: Color)
    ensures IsClosest(p, x, Closest(p, x))
  {
    if |p| > 1 {
      ClosestIsFirstNearest(p[..|p| - 1], x);
    }
  }

  lemma FirstNearestIsUnique(p: seq<Color>, x: Color, i: nat, j: nat)
    requires IsClosest(p, x, i) && IsClosest(p, x, j)
    ensures i == j
  {
    if p != [] {
      assert Distance(p[i], x) <= Distance(p[j], x) && Distance(p[j], x) <= Distance(p[i], x);
    }
  }

  /** A colour that is in the palette is found where it first stands. */
  lemma ExactMatch(p: seq<Color>, x: Color, i: nat)
    requires i < |p| && p[i] == x && x !in p[..i]
    ensures Closest(p, x) == i
  {
    DistanceZero(p[i], x);
    forall j: nat | j < i
      ensures Distance(p[j], x) > 0
    {
      assert p[j] in p[..i];
      DistanceZero(p[j], x);
    }
    ClosestIsFirstNearest(p, x);
    FirstNearestIsUnique(p, x, i, Closest(p, x));
  }

  /**
   Searching a palette for one of its own colours gives the index back exactly
   if the colour does not stand earlier in it; copying the index always does.
   */
  lemma OwnColour(p: seq<Color>, i: nat)
    requires i < |p|
    ensures Closest(p, p[i]) == i <==> p[i] !in p[..i]
  {
    if p[i] !in p[..i] {
      ExactMatch(p, p[i], i);
    } else {
      var j: nat :| j < i && p[..i][j] == p[i];
      ClosestIsFirstNearest(p, p[i]);
      DistanceZero(p[j], p[i]);
      DistanceZero(p[i], p[i]);
      assert Distance(p[Closest(p, p[i])], p[i]) == 0;
      assert j < i ==> Distance(p[j], p[i]) == 0;
    }
  }

  /** The search, which stops at a colour that is met exactly. */
  method FindClosestColorIndex(p: Palette, x: Color) returns (r: Byte)
    ensures r == Closest(p, x)
  {
    var closestIndex: Byte := 0;
    var minDistance: nat := 0xFFFF_FFFF;
    for i := 0 to |p|
      invariant closestIndex == Closest(p[..i], x)
      invariant if i == 0 then minDistance == 0xFFFF_FFFF
                else closestIndex < i && minDistance == Distance(p[closestIndex], x) && x !in p[..i]
    {
      DistanceFits(p[i], x);
      DistanceZero(p[i], x);
      var distance := Distance(p[i], x);
      if distance == 0 {
        ExactMatch(p, x, i);
        return i;
      }
      assert p[..i + 1][..i] == p[..i];
      if distance < minDistance {
        minDistance := distance;
        closestIndex := i;
      }
    }
    assert p[..|p|] == p;
    r := closestIndex;
  }

  // ----- Surfaces

  /** The size of a surface, and the bytes from one line to the next. */
  datatype Shape = Shape(width: nat, height: nat, stride: nat) {
    ghost predicate Fits(mem: seq<Byte>) { width <= stride && |mem| == Offset(height, stride) }

    function At(mem: seq<Byte>, x: nat, y: nat): Byte
      requires Fits(mem) && x < stride && y < height
    {
      OffsetMonotone(y, height, stride);
      mem[Offset(y, stride) + x]
    }

    /** Columns `a` to `b` of a line. */
    function Part(mem: seq<Byte>, y: nat, a: nat, b: nat): (r: seq<Byte>)
      requires Fits(mem) && y < height && a <= b <= width
      ensures |r| == b - a
    {
      OffsetMonotone(y, height, stride);
      mem[Offset(y, stride) + a..Offset(y, stride) + b]
    }
  }

  class Surface8 {
    const shape: Shape
    const palette: Palette
    const data: array<Byte>

    ghost predicate Valid()
      reads data
    {
      shape.Fits(data[..])
    }

    constructor (width: nat, height: nat, palette: Palette)
      ensures Valid() && fresh(data) && shape == Shape(width, height, BytesPerLine(width)) && this.palette == palette
    {
      shape := Shape(width, height, BytesPerLine(width));
      this.palette := palette;
      data := new Byte[Offset(height, BytesPerLine(width))](_ => 0);
    }

    /** A part of a line as indices, for a target with the same palette. */
    method ReadIndices(line: nat, startX: nat, endX: nat, buffer: array<Byte>)
      requires Valid() && line < shape.height && startX <= endX <= shape.width && buffer != data
      requires buffer.Length == endX - startX
      modifies buffer
      ensures buffer[..] == shape.Part(data[..], line, startX, endX)
    {
      OffsetMonotone(line, shape.height, shape.stride);
      CopyN(data[..], Offset(line, shape.stride) + startX, buffer, 0, endX - startX);
    }

    /** A part of a line for a target with a palette: copied if the palettes are the same, and searched for if not. */
    method ReadLineInto(line: nat, startX: nat, endX: nat, targetPalette: Palette, buffer: array<Byte>)
      requires Valid() && line < shape.height && startX <= endX <= shape.width && buffer != data
      requires buffer.Length == endX - startX
      requires palette == targetPalette || InRange(shape.Part(data[..], line, startX, endX), palette)
      modifies buffer
      ensures var part := shape.Part(data[..], line, startX, endX);
        buffer[..] == if palette == targetPalette then part else AllMapped(part, palette, targetPalette)
    {
      if palette == targetPalette {
        ReadIndices(line, startX, endX, buffer);
        return;
      }
      OffsetMonotone(line, shape.height, shape.stride);
      var from := Offset(line, shape.stride) + startX;
      ghost var part := shape.Part(data[..], line, startX, endX);
      ghost var mapped := AllMapped(part, palette, targetPalette);
      for x := 0 to endX - startX
        invariant data[..] == old(data[..]) && buffer[..x] == mapped[..x]
      {
        assert data[from + x] == data[..][from + x] == part[x];
        buffer[x] := FindClosestColorIndex(targetPalette, palette[data[from + x]]);
        assert buffer[x] == mapped[x];
      }
    }

    /** A part of a line as 32-bit pixels, by way of the palette. */
    method ReadPixels32(line: nat, startX: nat, endX: nat, buffer: array<Byte>)
      requires Valid() && line < shape.height && startX <= endX <= shape.width && buffer != data
      requires buffer.Length == 4 * (endX - startX) && InRange(shape.Part(data[..], line, startX, endX), palette)
      modifies buffer
      ensures buffer[..] == Pixels32(shape.Part(data[..], line, startX, endX), palette)
    {
      OffsetMonotone(line, shape.height, shape.stride);
      var from := Offset(line, shape.stride) + startX;
      ghost var indices := shape.Part(data[..], line, startX, endX);
      for x := 0 to endX - startX
        invariant data[..] == old(data[..])
        invariant buffer[..4 * x] == Pixels32(indices[..x], palette)
      {
        assert data[from + x] == data[..][from + x] == indices[x];
        var pixel := LittleEndianBytes(Encode32(palette[data[from + x]]), 4);
        Pixels32Next(indices, palette, x);
        StorePixel(buffer, 4 * x, pixel);
      }
      assert indices[..endX - startX] == indices;
    }
  }

  /** Stores the four bytes of a pixel. */
  method StorePixel(buffer: array<Byte>, at: nat, pixel: seq<Byte>)
    requires |pixel| == 4 && at + 4 <= buffer.Length
    modifies buffer
    ensures buffer[..at + 4] == old(buffer[..at]) + pixel
  {
    CopyN(pixel, 0, buffer, at, 4);
    assert pixel[0..4] == pixel;
  }

  predicate InRange(indices: seq<Byte>, p: Palette) { forall k :: 0 <= k < |indices| ==> indices[k] < |p| }

  function Pixels32(indices: seq<Byte>, p: Palette): (r: seq<Byte>)
    requires InRange(indices, p)
    ensures |r| == 4 * |indices|
  {
    if indices == [] then []
    else
      var last := |indices| - 1;
      Pixels32(indices[..last], p) + LittleEndianBytes(Encode32(p[indices[last]]), 4)
  }

  lemma Pixels32Next(indices: seq<Byte>, p: Palette, x: nat)
    requires x < |indices| && InRange(indices, p)
    ensures Pixels32(indices[..x + 1], p) == Pixels32(indices[..x], p) + LittleEndianBytes(Encode32(p[indices[x]]), 4)
  {
    var first := indices[..x + 1];
    assert |first| == x + 1 && first[..|first| - 1] == indices[..x] && first[|first| - 1] == indices[x];
  }

  lemma {:induction false} Pixels32At(indices: seq<Byte>, p: Palette, x: nat)
    requires x < |indices| && InRange(indices, p)
    ensures Pixels32(indices, p)[4 * x..4 * x + 4] == LittleEndianBytes(Encode32(p[indices[x]]), 4)
    decreases |indices|
  {
    var last := |indices| - 1;
    var front, pixel := Pixels32(indices[..last], p), LittleEndianBytes(Encode32(p[indices[last]]), 4);
    Parts(front, pixel, 4 * x, 4);
    if x < last {
      Pixels32At(indices[..last], p, x);
    }
  }

  lemma Parts(front: seq<Byte>, back: seq<Byte>, at: nat, n: nat)
    requires |back| == n
    ensures at + n <= |front| ==> (front + back)[at..at + n] == front[at..at + n]
    ensures at == |front| ==> (front + back)[at..at + n] == back
  {
  }

  // ----- The two ways

  /** What becomes of an index: the nearest colour of the target, or zero for one that the source's palette lacks. */
  function Mapped(b: Byte, from: Palette, onto: Palette): Byte
  {
    if b < |from| then Closest(onto, from[b]) else 0
  }

  function AllMapped(indices: seq<Byte>, from: Palette, onto: Palette): (r: seq<Byte>)
    ensures |r| == |indices|
  {
    seq(|indices|, k requires 0 <= k < |indices| => Mapped(indices[k], from, onto))
  }

  /** Where a copied rectangle comes from and goes to. */
  datatype Blit = Blit(sx: nat, sy: nat, width: nat, height: nat, dx: nat, dy: nat) {
    predicate Fits(s: Shape, t: Shape)
    {
      && sx + width <= s.width && sy + height <= s.height
      && dx + width <= t.width && dy + height <= t.height
    }
  }

  /** The source: its bytes, their shape, and its palette. */
  datatype Source = Source(mem: seq<Byte>, shape: Shape, palette: Palette) {
    ghost predicate Valid() { shape.Fits(mem) }

    /** The new contents of the place in column `x` and row `y` of the rectangle. */
    function NewAt(b: Blit, x: nat, y: nat, onto: Palette): Byte
      requires Valid() && x < b.width && y < b.height
      requires b.sx + b.width <= shape.width && b.sy + b.height <= shape.height
    {
      Mapped(shape.At(mem, b.sx + x, b.sy + y), palette, onto)
    }
  }

  /** The first `n` rows of the rectangle are copied; all other bytes are as before. */
  ghost predicate CopiedRows(before: seq<Byte>, cur: seq<Byte>, t: Shape, onto: Palette, src: Source, b: Blit, n: nat)
    requires t.Fits(before) && t.Fits(cur) && src.Valid() && b.Fits(src.shape, t) && n <= b.height
  {
    forall x: nat, y: nat :: x < t.stride && y < t.height ==>
      t.At(cur, x, y) == if b.dy <= y < b.dy + n && b.dx <= x < b.dx + b.width
                         then src.NewAt(b, x - b.dx, y - b.dy, onto) else t.At(before, x, y)
  }

  /** Writing a part of one row leaves all other places alone. */
  lemma AtAfterSplice(mem: seq<Byte>, t: Shape, row: nat, dx: nat, part: seq<Byte>, x: nat, y: nat)
    requires t.Fits(mem) && row < t.height && dx + |part| <= t.stride && x < t.stride && y < t.height
    ensures Offset(row, t.stride) + t.stride <= |mem|
    ensures t.At(Splice(mem, Offset(row, t.stride) + dx, part), x, y)
         == if y == row && dx <= x < dx + |part| then part[x - dx] else t.At(mem, x, y)
  {
    OffsetMonotone(row, t.height, t.stride);
    OffsetMonotone(y, t.height, t.stride);
    if y < row {
      OffsetMonotone(y, row, t.stride);
    } else if row < y {
      OffsetMonotone(row, y, t.stride);
    }
  }

  lemma NextRow(before: seq<Byte>, cur: seq<Byte>, t: Shape, onto: Palette, src: Source, b: Blit, n: nat, part: seq<Byte>)
    requires t.Fits(before) && t.Fits(cur) && src.Valid() && b.Fits(src.shape, t) && n < b.height
    requires CopiedRows(before, cur, t, onto, src, b, n) && part == NewPart(src, b, n, onto)
    ensures Offset(b.dy + n, t.stride) + t.stride <= |cur|
    ensures CopiedRows(before, Splice(cur, Offset(b.dy + n, t.stride) + b.dx, part), t, onto, src, b, n + 1)
  {
    OffsetMonotone(b.dy + n, t.height, t.stride);
    var next := Splice(cur, Offset(b.dy + n, t.stride) + b.dx, part);
    forall x: nat, y: nat | x < t.stride && y < t.height
      ensures t.At(next, x, y) == if b.dy <= y < b.dy + n + 1 && b.dx <= x < b.dx + b.width
                                  then src.NewAt(b, x - b.dx, y - b.dy, onto) else t.At(before, x, y)
    {
      NextRowAt(before, cur, t, onto, src, b, n, part, x, y);
    }
  }

  lemma NextRowAt(before: seq<Byte>, cur: seq<Byte>, t: Shape, onto: Palette, src: Source, b: Blit, n: nat, part: seq<Byte>,
                  x: nat, y: nat)
    requires t.Fits(before) && t.Fits(cur) && src.Valid() && b.Fits(src.shape, t) && n < b.height
    requires CopiedRows(before, cur, t, onto, src, b, n) && part == NewPart(src, b, n, onto)
    requires x < t.stride && y < t.height && Offset(b.dy + n, t.stride) + t.stride <= |cur|
    ensures t.At(Splice(cur, Offset(b.dy + n, t.stride) + b.dx, part), x, y)
         == if b.dy <= y < b.dy + n + 1 && b.dx <= x < b.dx + b.width
            then src.NewAt(b, x - b.dx, y - b.dy, onto) else t.At(before, x, y)
  {
    AtAfterSplice(cur, t, b.dy + n, b.dx, part, x, y);
    if y == b.dy + n && b.dx <= x < b.dx + b.width {
      NewPartAt(src, b, n, onto, x - b.dx);
    }
  }

  /** A part of a line is its places, one after the other. */
  lemma PartAt(mem: seq<Byte>, s: Shape, y: nat, a: nat, b: nat, k: nat)
    requires s.Fits(mem) && y < s.height && a <= b <= s.width && k < b - a
    ensures s.Part(mem, y, a, b)[k] == s.At(mem, a + k, y)
  {
    OffsetMonotone(y, s.height, s.stride);
    var from, end := Offset(y, s.stride) + a, Offset(y, s.stride) + b;
    assert mem[from..end][k] == mem[from + k];
  }

  /** Whichever way a copy is made, it leaves the same bytes. */
  lemma CopyIsUnique(before: seq<Byte>, p: seq<Byte>, q: seq<Byte>, t: Shape, onto: Palette, src: Source, b: Blit)
    requires t.Fits(before) && t.Fits(p) && t.Fits(q) && src.Valid() && b.Fits(src.shape, t)
    requires CopiedRows(before, p, t, onto, src, b, b.height) && CopiedRows(before, q, t, onto, src, b, b.height)
    ensures p == q
  {
    forall i | 0 <= i < |p|
      ensures p[i] == q[i]
    {
      var y := RowOf(i, t.stride, t.height);
      var x := i - Offset(y, t.stride);
      assert t.At(p, x, y) == t.At(q, x, y);
    }
  }

  /** What is left at one place of the rectangle is the first of the target's colours nearest to the source's. */
  lemma CopiedPixel(before: seq<Byte>, cur: seq<Byte>, t: Shape, onto: Palette, src: Source, b: Blit, x: nat, y: nat)
    requires t.Fits(before) && t.Fits(cur) && src.Valid() && b.Fits(src.shape, t)
    requires CopiedRows(before, cur, t, onto, src, b, b.height) && x < b.width && y < b.height
    requires src.shape.At(src.mem, b.sx + x, b.sy + y) < |src.palette|
    ensures IsClosest(onto, src.palette[src.shape.At(src.mem, b.sx + x, b.sy + y)], t.At(cur, b.dx + x, b.dy + y))
  {
    ClosestIsFirstNearest(onto, src.palette[src.shape.At(src.mem, b.sx + x, b.sy + y)]);
  }

  /** The nearest target colour for every index of the source, and zero for the others. */
  method BuildColourMap(from: Palette, onto: Palette) returns (colourMap: array<Byte>)
    ensures fresh(colourMap) && IsMap(colourMap[..], from, onto)
  {
    colourMap := new Byte[256](_ => 0);
    for i := 0 to |from|
      invariant forall k: Byte :: colourMap[k] == if k < i then Mapped(k, from, onto) else 0
    {
      colourMap[i] := FindClosestColorIndex(onto, from[i]);
    }
  }

  ghost predicate IsMap(colourMap: seq<Byte>, from: Palette, onto: Palette)
  {
    |colourMap| == 256 && forall i: Byte :: colourMap[i] == Mapped(i, from, onto)
  }

  /** The fast way: a colour map made once, then one look-up for every pixel. */
  method Copy8BitTo8Bit(target: Surface8, source: Surface8, b: Blit)
    requires target.Valid() && source.Valid() && target.data != source.data && b.Fits(source.shape, target.shape)
    modifies target.data
    ensures target.Valid() && CopiedRows(old(target.data[..]), target.data[..], target.shape, target.palette,
                                         Source(source.data[..], source.shape, source.palette), b, b.height)
  {
    ghost var before := target.data[..];
    ghost var src := Source(source.data[..], source.shape, source.palette);
    var colourMap := BuildColourMap(source.palette, target.palette);
    for y := 0 to b.height
      invariant IsMap(colourMap[..], source.palette, target.palette) && source.data[..] == src.mem && target.Valid()
      invariant CopiedRows(before, target.data[..], target.shape, target.palette, src, b, y)
    {
      CopyRow(target, source, b, y, colourMap, before);
    }
  }

  method CopyRow(target: Surface8, source: Surface8, b: Blit, y: nat, colourMap: array<Byte>, ghost before: seq<Byte>)
    requires target.Valid() && source.Valid() && target.data != source.data && b.Fits(source.shape, target.shape)
    requires target.data != colourMap && IsMap(colourMap[..], source.palette, target.palette)
    requires y < b.height && target.shape.Fits(before)
    requires CopiedRows(before, target.data[..], target.shape, target.palette,
                        Source(source.data[..], source.shape, source.palette), b, y)
    modifies target.data
    ensures target.Valid() && CopiedRows(before, target.data[..], target.shape, target.palette,
                                         Source(source.data[..], source.shape, source.palette), b, y + 1)
  {
    ghost var src := Source(source.data[..], source.shape, source.palette);
    ghost var part := NewPart(src, b, y, target.palette);
    NextRow(before, target.data[..], target.shape, target.palette, src, b, y, part);
    var at := Offset(b.dy + y, target.shape.stride) + b.dx;
    ghost var next := Splice(target.data[..], at, part);
    MapInto(target, source, b, y, at, colourMap);
    assert target.data[..] == next;
  }

  method MapInto(target: Surface8, source: Surface8, b: Blit, y: nat, at: nat, colourMap: array<Byte>)
    requires source.Valid() && b.sx + b.width <= source.shape.width && b.sy + b.height <= source.shape.height
    requires y < b.height && at + b.width <= target.data.Length && target.data != source.data
    requires target.data != colourMap && IsMap(colourMap[..], source.palette, target.palette)
    modifies target.data
    ensures target.data[..] == Splice(old(target.data[..]), at,
              NewPart(Source(source.data[..], source.shape, source.palette), b, y, target.palette))
  {
    var rowBuffer := new Byte[b.width](_ => 0);
    ghost var src := Source(source.data[..], source.shape, source.palette);
    ghost var part := NewPart(src, b, y, target.palette);
    source.ReadLineInto(b.sy + y, b.sx, b.sx + b.width, source.palette, rowBuffer);
    assert AllMapped(rowBuffer[..], source.palette, target.palette) == part;
    MapRow(target, at, rowBuffer, colourMap, source.palette);
    assert source.data[..] == src.mem;
  }

  /** The new contents of a row of the rectangle. */
  ghost function NewPart(src: Source, b: Blit, y: nat, onto: Palette): (r: seq<Byte>)
    requires src.Valid() && y < b.height && b.sx + b.width <= src.shape.width && b.sy + b.height <= src.shape.height
    ensures |r| == b.width
  {
    AllMapped(src.shape.Part(src.mem, b.sy + y, b.sx, b.sx + b.width), src.palette, onto)
  }

  lemma NewPartAt(src: Source, b: Blit, y: nat, onto: Palette, k: nat)
    requires src.Valid() && y < b.height && b.sx + b.width <= src.shape.width && b.sy + b.height <= src.shape.height
    requires k < b.width
    ensures NewPart(src, b, y, onto)[k] == src.NewAt(b, k, y, onto)
  {
    PartAt(src.mem, src.shape, b.sy + y, b.sx, b.sx + b.width, k);
  }

  method MapRow(target: Surface8, at: nat, rowBuffer: array<Byte>, colourMap: array<Byte>, ghost from: Palette)
    requires at + rowBuffer.Length <= target.data.Length && target.data != rowBuffer && target.data != colourMap
    requires IsMap(colourMap[..], from, target.palette)
    modifies target.data
    ensures target.data[..] == Splice(old(target.data[..]), at, AllMapped(rowBuffer[..], from, target.palette))
  {
    ghost var before := target.data[..];
    ghost var mapped := AllMapped(rowBuffer[..], from, target.palette);
    for x := 0 to rowBuffer.Length
      invariant target.data[..] == Splice(before, at, mapped[..x])
    {
      assert colourMap[rowBuffer[x]] == colourMap[..][rowBuffer[x]] == mapped[x];
      NextPlace(before, at, mapped, x);
      target.data[at + x] := colourMap[rowBuffer[x]];
    }
    assert mapped[..rowBuffer.Length] == mapped;
  }

  lemma NextPlace(before: seq<Byte>, at: nat, part: seq<Byte>, x: nat)
    requires x < |part| && at + |part| <= |before|
    ensures Splice(before, at, part[..x])[at + x := part[x]] == Splice(before, at, part[..x + 1])
  {
  }

  /** All indices of the rectangle are in the source's palette. */
  ghost predicate AllInRange(src: Source, b: Blit)
    requires src.Valid() && b.sx + b.width <= src.shape.width && b.sy + b.height <= src.shape.height
  {
    forall x: nat, y: nat :: b.sx <= x < b.sx + b.width && b.sy <= y < b.sy + b.height
                             ==> src.shape.At(src.mem, x, y) < |src.palette|
  }

  lemma PartInRange(src: Source, b: Blit, y: nat)
    requires src.Valid() && b.sx + b.width <= src.shape.width && b.sy + b.height <= src.shape.height
    requires AllInRange(src, b) && y < b.height
    ensures InRange(src.shape.Part(src.mem, b.sy + y, b.sx, b.sx + b.width), src.palette)
  {
    var part := src.shape.Part(src.mem, b.sy + y, b.sx, b.sx + b.width);
    forall k | 0 <= k < |part|
      ensures part[k] < |src.palette|
    {
      PartAt(src.mem, src.shape, b.sy + y, b.sx, b.sx + b.width, k);
    }
  }

  /** The general way, for any target: pixels of 32 bits, and the search for every one of them. */
  method CopyBy32Bit(target: Surface8, source: Surface8, b: Blit)
    requires target.Valid() && source.Valid() && target.data != source.data && b.Fits(source.shape, target.shape)
    requires AllInRange(Source(source.data[..], source.shape, source.palette), b)
    modifies target.data
    ensures target.Valid() && CopiedRows(old(target.data[..]), target.data[..], target.shape, target.palette,
                                         Source(source.data[..], source.shape, source.palette), b, b.height)
  {
    ghost var before := target.data[..];
    ghost var src := Source(source.data[..], source.shape, source.palette);
    for y := 0 to b.height
      invariant source.data[..] == src.mem && target.Valid()
      invariant CopiedRows(before, target.data[..], target.shape, target.palette, src, b, y)
    {
      CopyRowBy32Bit(target, source, b, y, before);
    }
  }

  /** A row of the rectangle as 32-bit pixels. */
  method ReadRow32(source: Surface8, b: Blit, y: nat) returns (line32: array<Byte>)
    requires source.Valid() && b.sx + b.width <= source.shape.width && b.sy + b.height <= source.shape.height
    requires AllInRange(Source(source.data[..], source.shape, source.palette), b) && y < b.height
    ensures fresh(line32)
    ensures var indices := source.shape.Part(source.data[..], b.sy + y, b.sx, b.sx + b.width);
      InRange(indices, source.palette) && line32[..] == Pixels32(indices, source.palette)
  {
    PartInRange(Source(source.data[..], source.shape, source.palette), b, y);
    line32 := new Byte[4 * b.width](_ => 0);
    source.ReadPixels32(b.sy + y, b.sx, b.sx + b.width, line32);
  }

  method CopyRowBy32Bit(target: Surface8, source: Surface8, b: Blit, y: nat, ghost before: seq<Byte>)
    requires target.Valid() && source.Valid() && target.data != source.data && b.Fits(source.shape, target.shape)
    requires AllInRange(Source(source.data[..], source.shape, source.palette), b)
    requires y < b.height && target.shape.Fits(before)
    requires CopiedRows(before, target.data[..], target.shape, target.palette,
                        Source(source.data[..], source.shape, source.palette), b, y)
    modifies target.data
    ensures target.Valid() && CopiedRows(before, target.data[..], target.shape, target.palette,
                                         Source(source.data[..], source.shape, source.palette), b, y + 1)
  {
    ghost var src := Source(source.data[..], source.shape, source.palette);
    ghost var part := NewPart(src, b, y, target.palette);
    NextRow(before, target.data[..], target.shape, target.palette, src, b, y, part);
    var at := Offset(b.dy + y, target.shape.stride) + b.dx;
    ghost var next := Splice(target.data[..], at, part);
    SearchInto(target, source, b, y, at);
    assert target.data[..] == next;
  }

  method SearchInto(target: Surface8, source: Surface8, b: Blit, y: nat, at: nat)
    requires source.Valid() && b.sx + b.width <= source.shape.width && b.sy + b.height <= source.shape.height
    requires AllInRange(Source(source.data[..], source.shape, source.palette), b) && y < b.height
    requires at + b.width <= target.data.Length && target.data != source.data
    modifies target.data
    ensures target.data[..] == Splice(old(target.data[..]), at,
      NewPart(Source(source.data[..], source.shape, source.palette), b, y, target.palette))
  {
    var line32 := ReadRow32(source, b, y);
    SearchRow(target, at, line32, source.shape.Part(source.data[..], b.sy + y, b.sx, b.sx + b.width), source.palette);
  }

  method SearchRow(target: Surface8, at: nat, line32: array<Byte>, ghost indices: seq<Byte>, ghost from: Palette)
    requires at + |indices| <= target.data.Length && target.data != line32
    requires InRange(indices, from) && line32[..] == Pixels32(indices, from)
    modifies target.data
    ensures target.data[..] == Splice(old(target.data[..]), at, AllMapped(indices, from, target.palette))
  {
    ghost var before := target.data[..];
    ghost var mapped := AllMapped(indices, from, target.palette);
    var width := line32.Length / 4;
    for x := 0 to width
      invariant target.data[..] == Splice(before, at, mapped[..x])
    {
      Pixels32At(indices, from, x);
      assert line32[4 * x..4 * x + 4] == line32[..][4 * x..4 * x + 4];
      var c := ReadColor32(line32[4 * x..4 * x + 4], from[indices[x]]);
      var i := FindClosestColorIndex(target.palette, c);
      assert i == mapped[x];
      NextPlace(before, at, mapped, x);
      target.data[at + x] := i;
    }
    assert mapped[..width] == mapped;
  }

  /** Loads a pixel and takes it apart. */
  method ReadColor32(pixel: seq<Byte>, ghost stored: Color) returns (c: Color)
    requires pixel == LittleEndianBytes(Encode32(stored), 4)
    ensures c == stored
  {
    Pow256Values();
    LittleEndianRoundTrip(Encode32(stored), 4);
    Color32RoundTrip(stored);
    c := Decode32(LittleEndian(pixel));
  }

  /** How much of a stretch of `n` from `d` on is left before `limit`. */
  function Kept(d: nat, n: nat, limit: nat): nat
  {
    if d >= limit then 0 else if d + n > limit then limit - d else n
  }

  function ClipTo(t: Shape, sx: nat, sy: nat, width: nat, height: nat, dx: nat, dy: nat): Blit
  {
    Blit(sx, sy, Kept(dx, width, t.width), Kept(dy, height, t.height), dx, dy)
  }

  /** The clipped rectangle has been copied, if anything is left of it; otherwise nothing changes. */
  ghost predicate Drawn(before: seq<Byte>, cur: seq<Byte>, t: Shape, onto: Palette, src: Source, b: Blit)
    requires t.Fits(before) && t.Fits(cur) && src.Valid()
  {
    if b.width == 0 || b.height == 0 then cur == before
    else b.Fits(src.shape, t) && CopiedRows(before, cur, t, onto, src, b, b.height)
  }

  /** The new byte is the first of the nearest target colours, or zero for an index that the source's palette lacks. */
  ghost predicate Matches(drawn: Byte, index: Byte, from: Palette, onto: Palette)
  {
    if index < |from| then IsClosest(onto, from[index], drawn) else drawn == 0
  }

  /** Which bytes a drawing changes, and which byte of the source each of them stands for. */
  lemma DrawnBytes(before: seq<Byte>, cur: seq<Byte>, t: Shape, onto: Palette, src: Source,
                   sx: nat, sy: nat, width: nat, height: nat, dx: nat, dy: nat, x: nat, y: nat, at: nat)
    requires t.Fits(before) && t.Fits(cur) && src.Valid() && x < t.stride && y < t.height && at == y * t.stride + x
    requires sx + width <= src.shape.width && sy + height <= src.shape.height
    requires Drawn(before, cur, t, onto, src, ClipTo(t, sx, sy, width, height, dx, dy))
    ensures at < |cur| == |before|
    ensures if dx <= x < dx + width && x < t.width && dy <= y < dy + height
            then exists from: nat :: from == (sy + (y - dy)) * src.shape.stride + (sx + (x - dx)) && from < |src.mem|
                                     && Matches(cur[at], src.mem[from], src.palette, onto)
            else cur[at] == before[at]
  {
    var b := ClipTo(t, sx, sy, width, height, dx, dy);
    PlaceOf(t, cur, x, y);
    PlaceOf(t, before, x, y);
    if dx <= x < dx + width && x < t.width && dy <= y < dy + height {
      var from := CopiedFrom(before, cur, t, onto, src, b, x, y);
    } else {
      NotCopied(before, cur, t, onto, src, b, x, y);
    }
  }

  lemma CopiedFrom(before: seq<Byte>, cur: seq<Byte>, t: Shape, onto: Palette, src: Source, b: Blit, x: nat, y: nat)
    returns (from: nat)
    requires t.Fits(before) && t.Fits(cur) && src.Valid() && b.Fits(src.shape, t)
    requires CopiedRows(before, cur, t, onto, src, b, b.height)
    requires b.dx <= x < b.dx + b.width && b.dy <= y < b.dy + b.height
    ensures from == (b.sy + (y - b.dy)) * src.shape.stride + (b.sx + (x - b.dx)) && from < |src.mem|
    ensures Matches(t.At(cur, x, y), src.mem[from], src.palette, onto)
  {
    var x', y' := b.sx + (x - b.dx), b.sy + (y - b.dy);
    PlaceOf(src.shape, src.mem, x', y');
    from := y' * src.shape.stride + x';
    MappedMatches(src.mem[from], src.palette, onto);
    assert t.At(cur, x, y) == src.NewAt(b, x - b.dx, y - b.dy, onto);
  }

  lemma MappedMatches(index: Byte, from: Palette, onto: Palette)
    ensures Matches(Mapped(index, from, onto), index, from, onto)
  {
    if index < |from| {
      ClosestIsFirstNearest(onto, from[index]);
    }
  }

  lemma NotCopied(before: seq<Byte>, cur: seq<Byte>, t: Shape, onto: Palette, src: Source, b: Blit, x: nat, y: nat)
    requires t.Fits(before) && t.Fits(cur) && src.Valid() && x < t.stride && y < t.height
    requires Drawn(before, cur, t, onto, src, b)
    requires !(b.dx <= x < b.dx + b.width && b.dy <= y < b.dy + b.height)
    ensures t.At(cur, x, y) == t.At(before, x, y)
  {
  }

  lemma PlaceOf(s: Shape, mem: seq<Byte>, x: nat, y: nat)
    requires s.Fits(mem) && x < s.stride && y < s.height
    ensures y * s.stride + x < |mem| && mem[y * s.stride + x] == s.At(mem, x, y)
  {
    OffsetIsProduct(y, s.stride);
    OffsetMonotone(y, s.height, s.stride);
  }

  /** The whole draw: clipped to the target, then by the fast way, both sides having 8-bit palettes. */
  method DrawSurface(target: Surface8, source: Surface8, sx: nat, sy: nat, width0: nat, height0: nat, dx: nat, dy: nat)
    requires target.Valid() && source.Valid() && target.data != source.data
    requires sx + width0 <= source.shape.width && sy + height0 <= source.shape.height
    modifies target.data
    ensures target.Valid()
    ensures Drawn(old(target.data[..]), target.data[..], target.shape, target.palette,
                  Source(source.data[..], source.shape, source.palette),
                  ClipTo(target.shape, sx, sy, width0, height0, dx, dy))
  {
    if dx >= target.shape.width || dy >= target.shape.height {
      return;
    }
    var width, height := width0, height0;
    if dx + width > target.shape.width {
      width := target.shape.width - dx;
    }
    if dy + height > target.shape.height {
      height := target.shape.height - dy;
    }
    if width == 0 || height == 0 {
      return;
    }
    ghost var b := ClipTo(target.shape, sx, sy, width0, height0, dx, dy);
    assert b == Blit(sx, sy, width, height, dx, dy);
    Copy8BitTo8Bit(target, source, Blit(sx, sy, width, height, dx, dy));
  }
}
