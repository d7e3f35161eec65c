/** Saving a surface as a BMP file. */
module BmpWriter {
  import opened Bits
  import opened Memory
  import opened Colours

  datatype Depth = Depth8 | Depth8NoPalette | Depth16 | Depth32 {
    function Bits(): nat { match this case Depth8 => 8 case Depth8NoPalette => 8 case Depth16 => 16 case Depth32 => 32 }

    function BytesPerPixel(): nat { (Bits() + 7) / 8 }

    predicate UsesBitfields() { Depth16? || Depth32? }
  }

  function Padding(size: nat): (r: nat)
    ensures r < 4 && (size + r) % 4 == 0
  {
    if size % 4 != 0 then 4 - size % 4 else 0
  }

  /** A surface in one of the default formats, with the bytes of its lines from top to bottom. */
  datatype Surface = Surface(width: nat, height: nat, depth: Depth, palette: seq<Color>, lines: seq<seq<Byte>>) {
    predicate Valid()
    {
      && width < 0x1_0000 && height < 0x1_0000 && |palette| <= 256 && |lines| == height
      && forall y :: 0 <= y < height ==> |lines[y]| == RawRowSize()
    }

    function RawRowSize(): nat { width * depth.BytesPerPixel() }

    /** What is added to a row to make its size a multiple of four. */
    function Pad(): nat { Padding(RawRowSize()) }

    function PaddedRowSize(): (r: nat)
      ensures RawRowSize() <= r < RawRowSize() + 4 && r % 4 == 0
    {
      RawRowSize() + Pad()
    }

    function InfoHeaderSize(): nat { if depth.UsesBitfields() then 56 else 40 }

    /** The colours in the file: the surface's, or 256 greys if it has no palette. */
    function Palette(): seq<Color>
    {
      match depth
      case Depth8 => palette
      case Depth8NoPalette => seq(256, i requires 0 <= i < 256 => Color(i, i, i))
      case _ => []
    }

    function OffsetAfterHeader(): nat { 14 + InfoHeaderSize() + 4 * |Palette()| }

    function FileSize(): nat { OffsetAfterHeader() + PaddedRowSize() * height }

    function Masks(): seq<nat>
    {
      match depth
      case Depth16 => [0xF800, 0x07E0, 0x001F, 0]
      case Depth32 => [0xFF_0000, 0xFF00, 0xFF, 0]
      case _ => []
    }
  }

  // ----- The file

  function Word16(v: nat): (b: seq<Byte>)
    ensures |b| == 2
  {
    LittleEndianBytes(v, 2)
  }

  function Word32(v: nat): (b: seq<Byte>)
    ensures |b| == 4
  {
    LittleEndianBytes(v, 4)
  }

  function FileHeader(s: Surface): (b: seq<Byte>)
    ensures |b| == 14
  {
    [0x42, 0x4D] + Word32(s.FileSize()) + Word16(0) + Word16(0)
    + Word32(s.OffsetAfterHeader())
  }

  function InfoHeader(s: Surface): (b: seq<Byte>)
    ensures |b| == 40
  {
    InfoStart(s) + InfoEnd(s)
  }

  function InfoStart(s: Surface): (b: seq<Byte>)
    ensures |b| == 16
  {
    Word32(s.InfoHeaderSize()) + Word32(s.width) + Word32(s.height) + Word16(1) + Word16(s.depth.Bits())
  }

  function InfoEnd(s: Surface): (b: seq<Byte>)
    ensures |b| == 24
  {
    Word32(if s.depth.UsesBitfields() then 3 else 0) + Word32(0) + Word32(0) + Word32(0)
    + Word32(|s.Palette()|) + Word32(0)
  }

  function Words32(vs: seq<nat>): (b: seq<Byte>)
    ensures |b| == 4 * |vs|
  {
    if vs == [] then [] else Words32(vs[..|vs| - 1]) + Word32(vs[|vs| - 1])
  }

  function PaletteBytes(p: seq<Color>): (b: seq<Byte>)
    ensures |b| == 4 * |p|
  {
    if p == [] then []
    else PaletteBytes(p[..|p| - 1]) + [p[|p| - 1].blue, p[|p| - 1].green, p[|p| - 1].red, 0]
  }

  /** The last `n` lines, the bottom one first. */
  function RowsBottomUp(s: Surface, n: nat): (b: seq<Byte>)
    requires s.Valid() && n <= s.height
    ensures |b| == Offset(n, s.PaddedRowSize())
  {
    if n == 0 then [] else RowsBottomUp(s, n - 1) + s.lines[s.height - n] + Zeros(s.Pad())
  }

  function Headers(s: Surface): (b: seq<Byte>)
    ensures |b| == s.OffsetAfterHeader()
  {
    FileHeader(s) + InfoHeader(s) + Words32(s.Masks()) + PaletteBytes(s.Palette())
  }

  function BmpFile(s: Surface): (b: seq<Byte>)
    requires s.Valid()
    ensures |b| == s.OffsetAfterHeader() + Offset(s.height, s.PaddedRowSize())
  {
    Headers(s) + RowsBottomUp(s, s.height)
  }

  // ----- The layout

  /** A part of a sequence of parts. */
  lemma PartOf(before: seq<Byte>, part: seq<Byte>, after: seq<Byte>)
    ensures (before + part + after)[|before|..|before| + |part|] == part
  {
  }

  lemma SecondPart(a: seq<Byte>, b: seq<Byte>, from: nat, end: nat)
    requires from <= end <= |b|
    ensures (a + b)[|a| + from..|a| + end] == b[from..end]
  {
  }

  lemma {:induction false} LowBytes(v: nat, n: nat)
    ensures LittleEndian(LittleEndianBytes(v, n)) == v % Pow256(n)
  {
    if n > 0 {
      LowBytes(v / 256, n - 1);
      assert LittleEndianBytes(v, n)[1..] == LittleEndianBytes(v / 256, n - 1);
      ModSplit(v, Pow256(n - 1));
    }
  }

  lemma ModSplit(v: nat, p: nat)
    requires p > 0
    ensures v % (256 * p) == v % 256 + 256 * (v / 256 % p)
  {
    var q, r := v / 256, v % 256;
    var qq, qr := q / p, q % p;
    assert q == p * qq + qr;
    assert v == 256 * q + r == (256 * p) * qq + (256 * qr + r) by {
      assert 256 * (p * qq) == (256 * p) * qq;
    }
    assert 0 <= 256 * qr + r < 256 * p;
    QuotientIs(v, 256 * p, qq, 256 * qr + r);
  }

  /** A number of `n` bytes in a file. */
  function Field(file: seq<Byte>, at: nat, n: nat): nat
    requires at + n <= |file|
  {
    LittleEndian(file[at..at + n])
  }

  lemma FieldIs(file: seq<Byte>, at: nat, bytes: seq<Byte>, v: nat)
    requires at + |bytes| <= |file| && file[at..at + |bytes|] == bytes && LittleEndian(bytes) == v
    ensures Field(file, at, |bytes|) == v
  {
  }

  lemma HeaderSlices(file: seq<Byte>, first: seq<Byte>, second: seq<Byte>, rest: seq<Byte>)
    requires |first| == 14 && |second| == 40 && file == first + second + rest
    ensures |file| >= 54 && file[..2] == first[..2]
    ensures Field(file, 2, 4) == Field(first, 2, 4) && Field(file, 10, 4) == Field(first, 10, 4)
    ensures Field(file, 18, 4) == Field(second, 4, 4) && Field(file, 22, 4) == Field(second, 8, 4)
    ensures Field(file, 14, 4) == Field(second, 0, 4) && Field(file, 28, 2) == Field(second, 14, 2)
    ensures Field(file, 30, 4) == Field(second, 16, 4) && Field(file, 46, 4) == Field(second, 32, 4)
  {
    assert file[2..6] == first[2..6] && file[10..14] == first[10..14];
    assert file[14..18] == second[..4] && file[18..22] == second[4..8] && file[22..26] == second[8..12];
    assert file[28..30] == second[14..16] && file[30..34] == second[16..20] && file[46..50] == second[32..36];
  }

  lemma Word32Value(v: nat)
    ensures LittleEndian(Word32(v)) == v % 0x1_0000_0000
  {
    LowBytes(v, 4);
    Pow256Values();
  }

  lemma Word16Value(v: nat)
    ensures LittleEndian(Word16(v)) == v % 0x1_0000
  {
    LowBytes(v, 2);
    Pow256Values();
  }

  lemma FileInParts(s: Surface) returns (rest: seq<Byte>)
    requires s.Valid()
    ensures BmpFile(s) == FileHeader(s) + InfoHeader(s) + rest
    ensures |BmpFile(s)| == s.FileSize()
  {
    var words, colours, rows := Words32(s.Masks()), PaletteBytes(s.Palette()), RowsBottomUp(s, s.height);
    rest := words + colours + rows;
    Reassociated(FileHeader(s) + InfoHeader(s), words, colours, rows);
    OffsetIsProduct(s.height, s.PaddedRowSize());
  }

  lemma Reassociated(a: seq<Byte>, b: seq<Byte>, c: seq<Byte>, d: seq<Byte>)
    ensures a + b + c + d == a + (b + c + d)
  {
  }

  /** The fields that a reader needs, and the size. */
  lemma Fields(s: Surface)
    requires s.Valid()
    ensures var file := BmpFile(s);
      && |file| >= 54 && file[..2] == [0x42, 0x4D]
      && Field(file, 2, 4) == |file| % 0x1_0000_0000 && Field(file, 10, 4) == s.OffsetAfterHeader()
      && Field(file, 18, 4) == s.width && Field(file, 22, 4) == s.height && Field(file, 28, 2) == s.depth.Bits()
      && Field(file, 14, 4) == s.InfoHeaderSize() && Field(file, 46, 4) == |s.Palette()|
      && Field(file, 30, 4) == if s.depth.UsesBitfields() then 3 else 0
  {
    var rest := FileInParts(s);
    HeaderSlices(BmpFile(s), FileHeader(s), InfoHeader(s), rest);
    FileHeaderFields(s);
    InfoHeaderFields(s);
  }

  lemma FiveParts(w: seq<Byte>, a: seq<Byte>, b: seq<Byte>, c: seq<Byte>, d: seq<Byte>, e: seq<Byte>, rest: seq<Byte>)
    requires w == a + b + c + d + e + rest
    ensures var ab := |a| + |b|;
      var abc := ab + |c|;
      var abcd := abc + |d|;
      w[..|a|] == a && w[|a|..ab] == b && w[ab..abc] == c && w[abcd..abcd + |e|] == e
  {
  }

  lemma FileHeaderFields(s: Surface)
    requires s.Valid()
    ensures var h := FileHeader(s);
      && h[..2] == [0x42, 0x4D] && Field(h, 10, 4) == s.OffsetAfterHeader()
      && Field(h, 2, 4) == s.FileSize() % 0x1_0000_0000
  {
    FileHeaderOf(FileHeader(s), s.FileSize(), s.OffsetAfterHeader());
  }

  lemma FileHeaderOf(h: seq<Byte>, size: nat, offset: nat)
    requires offset < 0x1_0000 && h == [0x42, 0x4D] + Word32(size) + Word16(0) + Word16(0) + Word32(offset)
    ensures |h| == 14 && h[..2] == [0x42, 0x4D]
    ensures Field(h, 10, 4) == offset && Field(h, 2, 4) == size % 0x1_0000_0000
  {
    Word32Value(size);
    Word32Value(offset);
    var a, b, c, d, e := [0x42, 0x4D], Word32(size), Word16(0), Word16(0), Word32(offset);
    assert h == a + b + c + d + e + [];
    FiveParts(h, a, b, c, d, e, []);
    FieldIs(h, 2, b, size % 0x1_0000_0000);
    FieldIs(h, 10, e, offset);
  }

  lemma InfoHeaderFields(s: Surface)
    requires s.Valid()
    ensures var h := InfoHeader(s);
      && Field(h, 0, 4) == s.InfoHeaderSize() && Field(h, 4, 4) == s.width && Field(h, 8, 4) == s.height
      && Field(h, 14, 2) == s.depth.Bits()
      && Field(h, 16, 4) == (if s.depth.UsesBitfields() then 3 else 0) && Field(h, 32, 4) == |s.Palette()|
  {
    InfoStartFields(InfoStart(s), s.InfoHeaderSize(), s.width, s.height, s.depth.Bits());
    InfoEndFields(InfoEnd(s), if s.depth.UsesBitfields() then 3 else 0, |s.Palette()|);
    HeaderHalves(InfoHeader(s), InfoStart(s), InfoEnd(s));
  }

  lemma InfoStartFields(h: seq<Byte>, size: nat, width: nat, height: nat, bits: nat)
    requires size < 0x1_0000 && width < 0x1_0000 && height < 0x1_0000 && bits < 0x1_0000
    requires h == Word32(size) + Word32(width) + Word32(height) + Word16(1) + Word16(bits)
    ensures |h| == 16
    ensures Field(h, 0, 4) == size && Field(h, 4, 4) == width && Field(h, 8, 4) == height && Field(h, 14, 2) == bits
  {
    Word32Value(size);
    Word32Value(width);
    Word32Value(height);
    Word16Value(bits);
    assert h == Word32(size) + Word32(width) + Word32(height) + Word16(1) + Word16(bits) + [];
    FiveParts(h, Word32(size), Word32(width), Word32(height), Word16(1), Word16(bits), []);
    FieldIs(h, 0, Word32(size), size);
    FieldIs(h, 4, Word32(width), width);
    FieldIs(h, 8, Word32(height), height);
    FieldIs(h, 14, Word16(bits), bits);
  }

  lemma InfoEndFields(h: seq<Byte>, compression: nat, colours: nat)
    requires compression < 0x1_0000 && colours < 0x1_0000
    requires h == Word32(compression) + Word32(0) + Word32(0) + Word32(0) + Word32(colours) + Word32(0)
    ensures |h| == 24 && Field(h, 0, 4) == compression && Field(h, 16, 4) == colours
  {
    Word32Value(compression);
    Word32Value(colours);
    FiveParts(h, Word32(compression), Word32(0), Word32(0), Word32(0), Word32(colours), Word32(0));
    FieldIs(h, 0, Word32(compression), compression);
    FieldIs(h, 16, Word32(colours), colours);
  }

  lemma HeaderHalves(h: seq<Byte>, start: seq<Byte>, end: seq<Byte>)
    requires |start| == 16 && |end| == 24 && h == start + end
    ensures Field(h, 0, 4) == Field(start, 0, 4) && Field(h, 4, 4) == Field(start, 4, 4)
    ensures Field(h, 8, 4) == Field(start, 8, 4) && Field(h, 14, 2) == Field(start, 14, 2)
    ensures Field(h, 16, 4) == Field(end, 0, 4) && Field(h, 32, 4) == Field(end, 16, 4)
  {
    assert h[0..4] == start[0..4] && h[4..8] == start[4..8] && h[8..12] == start[8..12] && h[14..16] == start[14..16];
    assert h[16..20] == end[0..4] && h[32..36] == end[16..20];
  }

  /** The size field tells the size of the file exactly if it is less than four gigabytes. */
  lemma SizeField(s: Surface)
    requires s.Valid()
    ensures |BmpFile(s)| >= 54
    ensures Field(BmpFile(s), 2, 4) == |BmpFile(s)| <==> |BmpFile(s)| < 0x1_0000_0000
  {
    Fields(s);
    ModIsSelf(|BmpFile(s)|);
  }

  lemma ModIsSelf(n: nat)
    ensures n % 0x1_0000_0000 == n <==> n < 0x1_0000_0000
  {
  }

  lemma {:induction false} RowAt(s: Surface, n: nat, k: nat)
    requires s.Valid() && k < n <= s.height
    ensures Offset(k, s.PaddedRowSize()) + s.PaddedRowSize() <= Offset(n, s.PaddedRowSize())
    ensures RowsBottomUp(s, n)[Offset(k, s.PaddedRowSize())..Offset(k, s.PaddedRowSize()) + s.RawRowSize()]
         == s.lines[s.height - 1 - k]
    decreases n
  {
    OffsetMonotone(k, n, s.PaddedRowSize());
    var at := Offset(k, s.PaddedRowSize());
    var rows := RowsBottomUp(s, n);
    if k < n - 1 {
      RowAt(s, n - 1, k);
      assert rows[at..at + s.RawRowSize()] == RowsBottomUp(s, n - 1)[at..at + s.RawRowSize()];
    } else {
      PartOf(RowsBottomUp(s, n - 1), s.lines[s.height - n], Zeros(s.Pad()));
    }
  }

  /** Every row begins at a multiple of four past the offset that the file states, and the rows go from bottom to top. */
  lemma RowInFile(s: Surface, k: nat)
    requires s.Valid() && k < s.height
    ensures var at := s.OffsetAfterHeader() + Offset(k, s.PaddedRowSize());
      && Offset(k, s.PaddedRowSize()) % 4 == 0 && at + s.RawRowSize() <= |BmpFile(s)|
      && BmpFile(s)[at..at + s.RawRowSize()] == s.lines[s.height - 1 - k]
  {
    var from, raw := Offset(k, s.PaddedRowSize()), s.RawRowSize();
    RowAt(s, s.height, k);
    PaddedIsAligned(s, k);
    SecondPart(Headers(s), RowsBottomUp(s, s.height), from, from + raw);
  }

  lemma PaddedIsAligned(s: Surface, k: nat)
    ensures Offset(k, s.PaddedRowSize()) % 4 == 0
  {
    Aligned(k, s.PaddedRowSize());
  }

  lemma {:induction false} Aligned(k: nat, width: nat)
    requires width % 4 == 0
    ensures Offset(k, width) % 4 == 0
  {
    if k > 0 {
      Aligned(k - 1, width);
    }
  }

  /** Behind the pixels of a row come zeros. */
  lemma PaddingInFile(s: Surface, k: nat)
    requires s.Valid() && k < s.height
    ensures var at := s.OffsetAfterHeader() + Offset(k, s.PaddedRowSize());
      && at + s.PaddedRowSize() <= |BmpFile(s)|
      && forall i :: at + s.RawRowSize() <= i < at + s.PaddedRowSize() ==> BmpFile(s)[i] == 0
  {
    var from := Offset(k, s.PaddedRowSize());
    PaddingAt(s, s.height, k);
    ZerosBehind(Headers(s), RowsBottomUp(s, s.height), from + s.RawRowSize(), from + s.PaddedRowSize(), s.Pad());
  }

  lemma ZerosBehind(front: seq<Byte>, back: seq<Byte>, from: nat, end: nat, n: nat)
    requires from <= end <= |back| && back[from..end] == Zeros(n)
    ensures forall i :: |front| + from <= i < |front| + end ==> (front + back)[i] == 0
  {
    forall i | |front| + from <= i < |front| + end
      ensures (front + back)[i] == 0
    {
      assert (front + back)[i] == back[i - |front|] == back[from..end][i - |front| - from];
    }
  }

  lemma {:induction false} PaddingAt(s: Surface, n: nat, k: nat)
    requires s.Valid() && k < n <= s.height
    ensures Offset(k, s.PaddedRowSize()) + s.PaddedRowSize() <= Offset(n, s.PaddedRowSize())
    ensures RowsBottomUp(s, n)[Offset(k, s.PaddedRowSize()) + s.RawRowSize()..Offset(k, s.PaddedRowSize()) + s.PaddedRowSize()]
         == Zeros(s.Pad())
    decreases n
  {
    OffsetMonotone(k, n, s.PaddedRowSize());
    var front, line, pad := RowsBottomUp(s, n - 1), s.lines[s.height - n], Zeros(s.Pad());
    var at := Offset(k, s.PaddedRowSize());
    if k < n - 1 {
      PaddingAt(s, n - 1, k);
      assert front + line + pad == [] + front + (line + pad);
      PartInside([], front, line + pad, at + s.RawRowSize(), at + s.PaddedRowSize());
    } else {
      PartOf(front + line, pad, []);
      assert front + line + pad == front + line + pad + [];
    }
  }

  // ----- A reader

  function RowSize(width: nat, bits: nat): nat { width * bits / 8 }

  /** Line `y` from the top, found with nothing but what the file says. */
  function ReadLine(file: seq<Byte>, y: nat): (line: seq<Byte>)
    requires |file| >= 54
  {
    var offset, width, height, bits := Field(file, 10, 4), Field(file, 18, 4), Field(file, 22, 4), Field(file, 28, 2);
    var rowSize := RowSize(width, bits);
    Slice(file, offset + Offset(if y < height then height - 1 - y else 0, rowSize + Padding(rowSize)), rowSize)
  }

  function Slice(file: seq<Byte>, at: nat, n: nat): seq<Byte>
  {
    if at + n <= |file| then file[at..at + n] else []
  }

  /** Reading a saved file gives back every line of the surface, byte by byte. */
  lemma ReadSaved(s: Surface, y: nat)
    requires s.Valid() && y < s.height
    ensures |BmpFile(s)| >= 54 && ReadLine(BmpFile(s), y) == s.lines[y]
  {
    Fields(s);
    RowSizes(s);
    RowInFile(s, s.height - 1 - y);
    LineOf(BmpFile(s), y, s.OffsetAfterHeader(), s.width, s.height, s.depth.Bits(), s.RawRowSize(), s.PaddedRowSize(),
           s.lines[y]);
  }

  lemma LineOf(file: seq<Byte>, y: nat, offset: nat, width: nat, height: nat, bits: nat, rowSize: nat, padded: nat,
               line: seq<Byte>)
    requires |file| >= 54 && y < height && Field(file, 10, 4) == offset && Field(file, 18, 4) == width
    requires Field(file, 22, 4) == height && Field(file, 28, 2) == bits
    requires rowSize == RowSize(width, bits) && padded == rowSize + Padding(rowSize)
    requires Slice(file, offset + Offset(height - 1 - y, padded), rowSize) == line
    ensures ReadLine(file, y) == line
  {
  }

  /** Colour `k` of the colour table, which begins behind the info header: blue, green, red and an unused byte. */
  function ReadColour(file: seq<Byte>, k: nat): Color
    requires |file| >= 54
  {
    var entry := Slice(file, 14 + Field(file, 14, 4) + 4 * k, 4);
    if |entry| < 4 then Color(0, 0, 0) else Color(entry[2], entry[1], entry[0])
  }

  /** The masks that say which bits of a pixel are red, green and blue. */
  function ReadMask(file: seq<Byte>, k: nat): nat
    requires |file| >= 54
  {
    LittleEndian(Slice(file, 54 + 4 * k, 4))
  }

  /** A reader that goes by the fields finds the number of colours, and every colour. */
  lemma ReadSavedColour(s: Surface, k: nat)
    requires s.Valid() && k < |s.Palette()|
    ensures |BmpFile(s)| >= 54 && Field(BmpFile(s), 46, 4) == |s.Palette()|
    ensures ReadColour(BmpFile(s), k) == s.Palette()[k]
  {
    Fields(s);
    ColourAt(s.Palette(), k);
    var before := FileHeader(s) + InfoHeader(s) + Words32(s.Masks());
    assert |before| == 14 + s.InfoHeaderSize();
    PartInside(before, PaletteBytes(s.Palette()), RowsBottomUp(s, s.height), 4 * k, 4 * k + 4);
  }

  /** And the masks of pixels of 16 or 32 bits. */
  lemma ReadSavedMask(s: Surface, k: nat)
    requires s.Valid() && s.depth.UsesBitfields() && k < 4
    ensures |BmpFile(s)| >= 54 && Field(BmpFile(s), 30, 4) == 3
    ensures ReadMask(BmpFile(s), k) == s.Masks()[k]
  {
    Fields(s);
    var colours, rows := PaletteBytes(s.Palette()), RowsBottomUp(s, s.height);
    var before, words := FileHeader(s) + InfoHeader(s), Words32(s.Masks());
    TwoAndTwo(before, words, colours, rows);
    MasksAreWords(s, k);
    var w := WordOf(s.Masks(), k);
    WordInFile(BmpFile(s), before, words, colours + rows, k, w);
  }

  lemma MasksAreWords(s: Surface, k: nat)
    requires s.depth.UsesBitfields() && k < 4
    ensures |s.Masks()| == 4 && s.Masks()[k] < 0x1_0000_0000
  {
  }

  lemma TwoAndTwo(a: seq<Byte>, b: seq<Byte>, c: seq<Byte>, d: seq<Byte>)
    ensures a + b + c + d == a + b + (c + d)
  {
  }

  lemma WordOf(vs: seq<nat>, k: nat) returns (w: seq<Byte>)
    requires k < |vs| && vs[k] < 0x1_0000_0000
    ensures Words32(vs)[4 * k..4 * k + 4] == w && LittleEndian(w) == vs[k]
  {
    WordAt(vs, k);
    Word32Value(vs[k]);
    w := Word32(vs[k]);
  }

  lemma WordInFile(file: seq<Byte>, before: seq<Byte>, words: seq<Byte>, rest: seq<Byte>, k: nat, w: seq<Byte>)
    requires |before| == 54 && file == before + words + rest && 4 * k + 4 <= |words| && words[4 * k..4 * k + 4] == w
    ensures Slice(file, 54 + 4 * k, 4) == w
  {
    PartInside(before, words, rest, 4 * k, 4 * k + 4);
  }

  lemma PartInside(before: seq<Byte>, part: seq<Byte>, after: seq<Byte>, from: nat, end: nat)
    requires from <= end <= |part|
    ensures (before + part + after)[|before| + from..|before| + end] == part[from..end]
  {
  }

  lemma {:induction false} ColourAt(p: seq<Color>, k: nat)
    requires k < |p|
    ensures PaletteBytes(p)[4 * k..4 * k + 4] == [p[k].blue, p[k].green, p[k].red, 0]
    decreases |p|
  {
    var n := |p| - 1;
    if k < n {
      ColourAt(p[..n], k);
      assert PaletteBytes(p)[4 * k..4 * k + 4] == PaletteBytes(p[..n])[4 * k..4 * k + 4];
    }
  }

  lemma {:induction false} WordAt(vs: seq<nat>, k: nat)
    requires k < |vs|
    ensures Words32(vs)[4 * k..4 * k + 4] == Word32(vs[k])
    decreases |vs|
  {
    var n := |vs| - 1;
    if k < n {
      WordAt(vs[..n], k);
      assert Words32(vs)[4 * k..4 * k + 4] == Words32(vs[..n])[4 * k..4 * k + 4];
    }
  }

  lemma RowSizes(s: Surface)
    ensures RowSize(s.width, s.depth.Bits()) == s.RawRowSize()
  {
    match s.depth
    case Depth8 =>
    case Depth8NoPalette =>
    case Depth16 => assert s.width * 16 / 8 == s.width * 2;
    case Depth32 => assert s.width * 32 / 8 == s.width * 4;
  }

  // ----- The bytes of the headers

  /** A number of 32 bits, lowest byte first. */
  function FourBytesOf(v: nat): seq<Byte>
  {
    [v % 0x100, v / 0x100 % 0x100, v / 0x1_0000 % 0x100, v / 0x100_0000 % 0x100]
  }

  /** A number below 65536. */
  function TwoBytesOf(v: nat): seq<Byte>
    requires v < 0x1_0000
  {
    [v % 0x100, v / 0x100]
  }

  /** How many colours the file holds. */
  function ColourCount(s: Surface): nat
  {
    if s.depth.Depth8? then |s.palette| else if s.depth.Depth8NoPalette? then 256 else 0
  }

  /**
   The 54 bytes with which every file begins. The info header has 40 bytes, or
   56 with the masks, and rows are padded to a multiple of four.
   */
  lemma HeaderBytes(s: Surface)
    requires s.Valid()
    ensures var bits := if s.depth.Depth16? then 16 else if s.depth.Depth32? then 32 else 8;
      var info := if bits == 8 then 40 else 56;
      var offset := 14 + info + 4 * ColourCount(s);
      var row := (s.width * bits / 8 + 3) / 4 * 4;
      && |BmpFile(s)| == offset + row * s.height
      && 54 <= |BmpFile(s)|
      && BmpFile(s)[..54]
         == [0x42, 0x4D] + FourBytesOf(offset + row * s.height) + [0, 0, 0, 0] + FourBytesOf(offset)
            + (FourBytesOf(info) + FourBytesOf(s.width) + FourBytesOf(s.height) + [1, 0] + TwoBytesOf(bits))
            + (FourBytesOf(if bits == 8 then 0 else 3) + Zeros(12) + FourBytesOf(ColourCount(s)) + Zeros(4))
  {
    var rest := FileInParts(s);
    HeaderParts(s);
    HeaderSizes(s);
    Grouped(FileHeader(s), InfoStart(s), InfoEnd(s), rest);
  }

  lemma HeaderSizes(s: Surface)
    ensures |s.Palette()| == ColourCount(s) && s.depth.UsesBitfields() == (s.depth.Bits() != 8)
    ensures s.OffsetAfterHeader() == 14 + s.InfoHeaderSize() + 4 * ColourCount(s)
    ensures s.FileSize() == s.OffsetAfterHeader() + (s.width * s.depth.Bits() / 8 + 3) / 4 * 4 * s.height
  {
    RowSizes(s);
    PaddingRounds(s.RawRowSize());
  }

  lemma Grouped(a: seq<Byte>, b: seq<Byte>, c: seq<Byte>, rest: seq<Byte>)
    requires |a| == 14 && |b| == 16 && |c| == 24
    ensures (a + (b + c) + rest)[..54] == a + b + c
  {
  }

  lemma PaddingRounds(n: nat)
    ensures n + Padding(n) == (n + 3) / 4 * 4
  {
  }

  lemma HeaderParts(s: Surface)
    requires s.Valid()
    ensures FileHeader(s) == [0x42, 0x4D] + FourBytesOf(s.FileSize()) + [0, 0, 0, 0] + FourBytesOf(s.OffsetAfterHeader())
    ensures InfoStart(s) == FourBytesOf(s.InfoHeaderSize()) + FourBytesOf(s.width) + FourBytesOf(s.height) + [1, 0]
                            + TwoBytesOf(s.depth.Bits())
    ensures InfoEnd(s) == FourBytesOf(if s.depth.UsesBitfields() then 3 else 0) + Zeros(12) + FourBytesOf(|s.Palette()|)
                          + Zeros(4)
  {
    WordsAreBytes(s.FileSize());
    WordsAreBytes(s.OffsetAfterHeader());
    WordsAreBytes(s.InfoHeaderSize());
    WordsAreBytes(s.width);
    WordsAreBytes(s.height);
    WordsAreBytes(|s.Palette()|);
    WordsAreBytes(s.depth.Bits());
    WordsAreBytes(if s.depth.UsesBitfields() then 3 else 0);
    ConstantWords();
  }

  lemma WordsAreBytes(v: nat)
    ensures Word32(v) == FourBytesOf(v)
    ensures v < 0x1_0000 ==> Word16(v) == TwoBytesOf(v)
  {
    FourBytes(v);
    TwoBytes(v);
  }

  lemma ConstantWords()
    ensures Word16(0) + Word16(0) == [0, 0, 0, 0] && Word16(1) == [1, 0]
    ensures Word32(0) == Zeros(4) && Word32(0) + Word32(0) + Word32(0) == Zeros(12)
  {
    WordsAreBytes(0);
    WordsAreBytes(1);
  }

  /** The colour table as bytes; a surface without a palette has the greys from black to white. */
  lemma ColourBytes(s: Surface, k: nat)
    requires s.Valid() && k < ColourCount(s)
    ensures 58 + 4 * k <= |BmpFile(s)|
    ensures BmpFile(s)[54 + 4 * k..58 + 4 * k]
         == if s.depth.Depth8? then [s.palette[k].blue, s.palette[k].green, s.palette[k].red, 0] else [k, k, k, 0]
  {
    ColourAt(s.Palette(), k);
    var before := FileHeader(s) + InfoHeader(s) + Words32(s.Masks());
    PartInside(before, PaletteBytes(s.Palette()), RowsBottomUp(s, s.height), 4 * k, 4 * k + 4);
  }

  const RED := Color(255, 0, 0)
  const GREEN := Color(0, 255, 0)
  const BLUE := Color(0, 0, 255)

  /** The masks are the pixels of pure red, green and blue, and none for an alpha channel. */
  lemma MasksAreColours(s: Surface)
    requires s.depth.UsesBitfields()
    ensures s.Masks() == if s.depth.Depth16? then [Encode16(RED), Encode16(GREEN), Encode16(BLUE), 0]
                         else [Encode32(RED), Encode32(GREEN), Encode32(BLUE), 0]
  {
    PixelLayout(RED);
    PixelLayout(GREEN);
    PixelLayout(BLUE);
  }

  // ----- The writer

  /** A stream that takes all that is written to it. */
  class Sink {
    var out: seq<Byte>

    constructor ()
      ensures out == []
    {
      out := [];
    }

    method Write(b: seq<Byte>)
      modifies this
      ensures out == old(out) + b
    {
      out := out + b;
    }
  }

  /** A 16-bit line is taken apart into colours and put together again, pixel by pixel; the others are copied. */
  method ReadLineInto(s: Surface, y: nat) returns (line: seq<Byte>)
    requires s.Valid() && y < s.height
    ensures line == s.lines[y]
  {
    if !s.depth.Depth16? {
      return s.lines[y];
    }
    line := [];
    for x := 0 to s.width
      invariant line == s.lines[y][..2 * x]
    {
      var pixel := s.lines[y][2 * x..2 * x + 2];
      Recoded(pixel);
      var c := Decode16(LittleEndian(pixel));
      line := line + LittleEndianBytes(Encode16(c), 2);
    }
  }

  /** Taking a pixel apart and putting it together changes nothing. */
  lemma Recoded(pixel: seq<Byte>)
    requires |pixel| == 2
    ensures LittleEndian(pixel) < 0x1_0000
    ensures LittleEndianBytes(Encode16(Decode16(LittleEndian(pixel))), 2) == pixel
  {
    Pow256Values();
    Pixel16RoundTrip(LittleEndian(pixel));
    BytesOfLittleEndian(pixel);
  }

  method WriteFileHeader(s: Surface, stream: Sink)
    modifies stream
    ensures stream.out == old(stream.out) + FileHeader(s)
  {
    stream.Write([0x42, 0x4D]);
    stream.Write(Word32(s.FileSize()));
    stream.Write(Word16(0));
    stream.Write(Word16(0));
    stream.Write(Word32(s.OffsetAfterHeader()));
    FileHeaderDone(s, old(stream.out));
  }

  method WriteInfoHeader(s: Surface, stream: Sink)
    modifies stream
    ensures stream.out == old(stream.out) + InfoHeader(s)
  {
    stream.Write(Word32(s.InfoHeaderSize()));
    stream.Write(Word32(s.width));
    stream.Write(Word32(s.height));
    stream.Write(Word16(1));
    stream.Write(Word16(s.depth.Bits()));
    stream.Write(Word32(if s.depth.UsesBitfields() then 3 else 0));
    stream.Write(Word32(0));
    stream.Write(Word32(0));
    stream.Write(Word32(0));
    stream.Write(Word32(|s.Palette()|));
    stream.Write(Word32(0));
    InfoHeaderDone(s, old(stream.out));
  }

  method WriteMasks(masks: seq<nat>, stream: Sink)
    modifies stream
    ensures stream.out == old(stream.out) + Words32(masks)
  {
    for i := 0 to |masks|
      invariant stream.out == old(stream.out) + Words32(masks[..i])
    {
      assert masks[..i + 1][..i] == masks[..i];
      stream.Write(Word32(masks[i]));
    }
    assert masks[..|masks|] == masks;
  }

  lemma FileHeaderDone(s: Surface, before: seq<Byte>)
    ensures before + [0x42, 0x4D] + Word32(s.FileSize()) + Word16(0) + Word16(0) + Word32(s.OffsetAfterHeader())
         == before + FileHeader(s)
  {
  }

  lemma InfoHeaderDone(s: Surface, before: seq<Byte>)
    ensures before + Word32(s.InfoHeaderSize()) + Word32(s.width) + Word32(s.height) + Word16(1) + Word16(s.depth.Bits())
            + Word32(if s.depth.UsesBitfields() then 3 else 0) + Word32(0) + Word32(0) + Word32(0)
            + Word32(|s.Palette()|) + Word32(0)
         == before + InfoHeader(s)
  {
  }

  method WritePalette(p: seq<Color>, stream: Sink)
    modifies stream
    ensures stream.out == old(stream.out) + PaletteBytes(p)
  {
    for i := 0 to |p|
      invariant stream.out == old(stream.out) + PaletteBytes(p[..i])
    {
      assert p[..i + 1][..i] == p[..i];
      stream.Write([p[i].blue, p[i].green, p[i].red, 0]);
    }
    assert p[..|p|] == p;
  }

  lemma RowDone(s: Surface, before: seq<Byte>, n: nat)
    requires s.Valid() && n < s.height
    ensures before + RowsBottomUp(s, n) + s.lines[s.height - 1 - n] + Zeros(s.Pad()) == before + RowsBottomUp(s, n + 1)
  {
  }

  method WriteRows(s: Surface, stream: Sink)
    requires s.Valid()
    modifies stream
    ensures stream.out == old(stream.out) + RowsBottomUp(s, s.height)
  {
    var y: nat := s.height;
    while y != 0
      invariant y <= s.height && stream.out == old(stream.out) + RowsBottomUp(s, s.height - y)
    {
      var line := ReadLineInto(s, y - 1);
      stream.Write(line);
      stream.Write(Zeros(s.Pad()));
      RowDone(s, old(stream.out), s.height - y);
      y := y - 1;
    }
  }

  /** Saves the surface; one without pixels is refused. */
  method SaveToBMP(s: Surface, stream: Sink) returns (ok: bool)
    requires s.Valid()
    modifies stream
    ensures ok == (s.width != 0 && s.height != 0)
    ensures stream.out == if ok then old(stream.out) + BmpFile(s) else old(stream.out)
  {
    if s.width == 0 || s.height == 0 {
      return false;
    }
    WriteFileHeader(s, stream);
    WriteInfoHeader(s, stream);
    WriteMasks(s.Masks(), stream);
    WritePalette(s.Palette(), stream);
    WriteRows(s, stream);
    InOrder(old(stream.out), FileHeader(s), InfoHeader(s), Words32(s.Masks()), PaletteBytes(s.Palette()), RowsBottomUp(s, s.height));
    return true;
  }

  lemma InOrder(before: seq<Byte>, a: seq<Byte>, b: seq<Byte>, c: seq<Byte>, d: seq<Byte>, e: seq<Byte>)
    ensures before + a + b + c + d + e == before + (a + b + c + d + e)
  {
  }
}
