/** Undoing the row filters of a PNG image with one byte per pixel (section 6 of RFC 2083). */
module PngFilter {
  import opened Bits
  import opened Memory
  import opened Numbers
  import opened Wrappers

  datatype Error = TooSmall | UnsupportedFilter

  // ----- The filters of the standard

  /** The neighbour that the linear estimate `left + above - upperLeft` comes closest to. */
  function PaethPredictor(left: Byte, above: Byte, upperLeft: Byte): Byte
  {
    var p := left + above - upperLeft;
    var pa, pb, pc := Abs(p - left), Abs(p - above), Abs(p - upperLeft);
    if pa <= pb && pa <= pc then left
    else if pb <= pc then above
    else upperLeft
  }

  /** It is one of the three, none of them is closer, and ties go to the left one, then to the one above. */
  lemma PaethIsNearest(left: Byte, above: Byte, upperLeft: Byte)
    ensures var p, r := left + above - upperLeft, PaethPredictor(left, above, upperLeft);
      && (r == left || r == above || r == upperLeft)
      && Abs(p - r) <= Abs(p - left) && Abs(p - r) <= Abs(p - above) && Abs(p - r) <= Abs(p - upperLeft)
      && (Abs(p - r) == Abs(p - left) ==> r == left)
      && (Abs(p - r) == Abs(p - above) ==> r == left || r == above)
  {
  }

  /** What a filter takes away from a byte, given its three neighbours. */
  function Predicted(filterType: Byte, left: Byte, above: Byte, upperLeft: Byte): Byte
  {
    if filterType == 1 then left
    else if filterType == 2 then above
    else if filterType == 3 then (left + above) / 2
    else if filterType == 4 then PaethPredictor(left, above, upperLeft)
    else 0
  }

  /** The element before position `x`, or zero at the left edge. */
  function Before(row: seq<Byte>, x: nat): Byte
    requires x <= |row|
  {
    if x == 0 then 0 else row[x - 1]
  }

  function Estimate(filterType: Byte, row: seq<Byte>, previous: seq<Byte>, x: nat): Byte
    requires x <= |row| && x < |previous|
  {
    Predicted(filterType, Before(row, x), previous[x], Before(previous, x))
  }

  /** The encoder of the standard: each byte less its estimate, modulo 256. */
  function Filter(filterType: Byte, row: seq<Byte>, previous: seq<Byte>): (r: seq<Byte>)
    requires |row| == |previous|
    ensures |r| == |row|
  {
    seq(|row|, x requires 0 <= x < |row| => (row[x] - Estimate(filterType, row, previous, x)) % 256)
  }

  /** The first `n` bytes of a row put back, each from the ones before it. */
  function Unfilter(filterType: Byte, filtered: seq<Byte>, previous: seq<Byte>, n: nat): (r: seq<Byte>)
    requires n <= |filtered| == |previous|
    ensures |r| == n
  {
    if n == 0 then []
    else
      var row := Unfilter(filterType, filtered, previous, n - 1);
      row + [(filtered[n - 1] + Estimate(filterType, row, previous, n - 1)) % 256]
  }

  /** Unfiltering takes back what filtering did, whatever the row, the row above and the filter. */
  lemma {:induction false} UnfilterFilter(filterType: Byte, row: seq<Byte>, previous: seq<Byte>, n: nat)
    requires n <= |row| == |previous|
    ensures Unfilter(filterType, Filter(filterType, row, previous), previous, n) == row[..n]
  {
    if n > 0 {
      UnfilterFilter(filterType, row, previous, n - 1);
      ByteBack(filterType, row, previous, n - 1);
      assert row[..n] == row[..n - 1] + [row[n - 1]];
    }
  }

  /** A filtered byte, with the estimate from the bytes before it. */
  lemma ByteBack(filterType: Byte, row: seq<Byte>, previous: seq<Byte>, x: nat)
    requires x < |row| == |previous|
    ensures (Filter(filterType, row, previous)[x] + Estimate(filterType, row[..x], previous, x)) % 256 == row[x]
  {
    assert Before(row[..x], x) == Before(row, x);
    BackAndForth(row[x], Estimate(filterType, row, previous, x));
  }

  lemma BackAndForth(a: Byte, b: Byte)
    ensures ((a - b) % 256 + b) % 256 == a
    ensures ((a + b) % 256 - b) % 256 == a
  {
    assert (a - b) % 256 == if a >= b then a - b else a - b + 256;
    assert (a + b) % 256 == if a + b < 256 then a + b else a + b - 256;
  }

  /** And the other way round, so a filter loses nothing and any bytes are the filtered form of some row. */
  lemma FilterUnfilter(filterType: Byte, filtered: seq<Byte>, previous: seq<Byte>)
    requires |filtered| == |previous|
    ensures Filter(filterType, Unfilter(filterType, filtered, previous, |filtered|), previous) == filtered
  {
    var row := Unfilter(filterType, filtered, previous, |filtered|);
    forall x | 0 <= x < |filtered|
      ensures Filter(filterType, row, previous)[x] == filtered[x]
    {
      ByteForth(filterType, filtered, previous, x, row);
    }
  }

  lemma ByteForth(filterType: Byte, filtered: seq<Byte>, previous: seq<Byte>, x: nat, row: seq<Byte>)
    requires x < |filtered| == |previous| && row == Unfilter(filterType, filtered, previous, |filtered|)
    ensures Filter(filterType, row, previous)[x] == filtered[x]
  {
    UnfilterPrefix(filterType, filtered, previous, x, |filtered|);
    UnfilterPrefix(filterType, filtered, previous, x + 1, |filtered|);
    assert row[x] == row[..x + 1][x];
    UnfilteredByte(filterType, filtered, previous, x, row[..x], row[x]);
    FilteredByte(filterType, filtered[x], row, previous, x);
  }

  lemma UnfilteredByte(filterType: Byte, filtered: seq<Byte>, previous: seq<Byte>, x: nat, before: seq<Byte>, b: Byte)
    requires x < |filtered| == |previous| && before == Unfilter(filterType, filtered, previous, x)
    requires b == Unfilter(filterType, filtered, previous, x + 1)[x]
    ensures b == (filtered[x] + Estimate(filterType, before, previous, x)) % 256
  {
  }

  lemma FilteredByte(filterType: Byte, f: Byte, row: seq<Byte>, previous: seq<Byte>, x: nat)
    requires x < |row| == |previous| && row[x] == (f + Estimate(filterType, row[..x], previous, x)) % 256
    ensures Filter(filterType, row, previous)[x] == f
  {
    assert Before(row, x) == Before(row[..x], x);
    BackAndForth(f, Estimate(filterType, row, previous, x));
  }

  lemma {:induction false} UnfilterPrefix(filterType: Byte, filtered: seq<Byte>, previous: seq<Byte>, x: nat, n: nat)
    requires x <= n <= |filtered| == |previous|
    ensures Unfilter(filterType, filtered, previous, n)[..x] == Unfilter(filterType, filtered, previous, x)
    decreases n
  {
    if x < n {
      UnfilterPrefix(filterType, filtered, previous, x, n - 1);
      var shorter := Unfilter(filterType, filtered, previous, n - 1);
      assert Unfilter(filterType, filtered, previous, n)[..x] == shorter[..x];
    }
  }

  /** The bytes to the left and above on the left, of a row put back; there are zeros at the left edge. */
  function Left(row: seq<Byte>, x: nat): int
    requires x < |row|
  {
    if x > 0 then row[x - 1] else 0
  }

  /** `m` is the mean of two bytes, rounded down. */
  predicate IsMean(m: int, a: int, b: int) { 2 * m <= a + b <= 2 * m + 1 }

  /** Of `left`, `above` and `upperLeft`, the first that is as close to `left + above - upperLeft` as any. */
  predicate IsPaeth(r: int, left: int, above: int, upperLeft: int)
  {
    var p := left + above - upperLeft;
    && (r == left || r == above || r == upperLeft)
    && Abs(p - r) <= Abs(p - left) && Abs(p - r) <= Abs(p - above) && Abs(p - r) <= Abs(p - upperLeft)
    && (Abs(p - r) == Abs(p - left) ==> r == left)
    && (Abs(p - r) == Abs(p - above) ==> r == left || r == above)
  }

  /** What was added to a filtered byte to get the byte of the row. */
  predicate IsEstimate(filterType: Byte, e: int, left: int, above: int, upperLeft: int)
  {
    match filterType
    case 0 => e == 0
    case 1 => e == left
    case 2 => e == above
    case 3 => IsMean(e, left, above)
    case 4 => IsPaeth(e, left, above, upperLeft)
    case _ => true
  }

  lemma PredictedIs(filterType: Byte, left: Byte, above: Byte, upperLeft: Byte)
    ensures IsEstimate(filterType, Predicted(filterType, left, above, upperLeft), left, above, upperLeft)
  {
    PaethIsNearest(left, above, upperLeft);
  }

  /** Every byte of a row put back is the filtered byte plus what section 6 of RFC 2083 says, modulo 256. */
  lemma UnfilteredIs(filterType: Byte, filtered: seq<Byte>, previous: seq<Byte>, x: nat) returns (e: Byte)
    requires x < |filtered| == |previous|
    ensures var row := Unfilter(filterType, filtered, previous, |filtered|);
      && row[x] == (filtered[x] + e) % 256
      && IsEstimate(filterType, e, Left(row, x), previous[x], Left(previous, x))
  {
    var row := Unfilter(filterType, filtered, previous, |filtered|);
    UnfilterPrefix(filterType, filtered, previous, x, |filtered|);
    UnfilterPrefix(filterType, filtered, previous, x + 1, |filtered|);
    assert row[x] == row[..x + 1][x];
    UnfilteredByte(filterType, filtered, previous, x, row[..x], row[x]);
    assert Before(row[..x], x) == Before(row, x) == Left(row, x);
    e := Estimate(filterType, row, previous, x);
    PredictedIs(filterType, Before(row, x), previous[x], Before(previous, x));
  }

  // ----- Whole images

  /** Row `y` of decompressed data: one byte for the filter, then `width` filtered bytes. */
  function FilterType(data: seq<Byte>, width: nat, height: nat, y: nat): Byte
    requires y < height && Offset(height, width + 1) <= |data|
  {
    Row(data, width + 1, height, y)[0]
  }

  function FilteredRow(data: seq<Byte>, width: nat, height: nat, y: nat): (r: seq<Byte>)
    requires y < height && Offset(height, width + 1) <= |data|
    ensures |r| == width
  {
    Row(data, width + 1, height, y)[1..]
  }

  /** Row `y` put back from the rows above it, beginning with a row of zeros above the first. */
  function UnfilteredRow(data: seq<Byte>, width: nat, height: nat, y: nat): (r: seq<Byte>)
    requires y < height && Offset(height, width + 1) <= |data|
    ensures |r| == width
  {
    var previous := if y == 0 then Zeros(width) else UnfilteredRow(data, width, height, y - 1);
    Unfilter(FilterType(data, width, height, y), FilteredRow(data, width, height, y), previous, width)
  }

  /** The row above row `y`. */
  function RowAbove(data: seq<Byte>, width: nat, height: nat, y: nat): (r: seq<Byte>)
    requires y <= height && Offset(height, width + 1) <= |data|
    ensures |r| == width
  {
    if y == 0 then Zeros(width) else UnfilteredRow(data, width, height, y - 1)
  }

  /** Every byte of an image put back, from the bytes put back before it; there are zeros above the first row. */
  lemma ImageByteIs(data: seq<Byte>, width: nat, height: nat, y: nat, x: nat) returns (e: Byte)
    requires y < height && x < width && Offset(height, width + 1) <= |data|
    ensures Offset(y, width + 1) + 1 + x < |data|
    ensures var row := UnfilteredRow(data, width, height, y);
      var above: int := if y == 0 then 0 else UnfilteredRow(data, width, height, y - 1)[x];
      var upperLeft := if y == 0 then 0 else Left(UnfilteredRow(data, width, height, y - 1), x);
      && row[x] == (data[Offset(y, width + 1) + 1 + x] + e) % 256
      && IsEstimate(data[Offset(y, width + 1)], e, Left(row, x), above, upperLeft)
  {
    OffsetMonotone(y, height, width + 1);
    var previous := RowAbove(data, width, height, y);
    e := UnfilteredIs(FilterType(data, width, height, y), FilteredRow(data, width, height, y), previous, x);
  }

  /** How many rows there are from row `y` on before one with an unknown filter. */
  function GoodRows(data: seq<Byte>, width: nat, height: nat, y: nat): (n: nat)
    requires y <= height && Offset(height, width + 1) <= |data|
    ensures y + n <= height
    decreases height - y
  {
    if y == height || FilterType(data, width, height, y) > 4 then 0 else 1 + GoodRows(data, width, height, y + 1)
  }

  ghost predicate GoodSoFar(data: seq<Byte>, width: nat, height: nat, y: nat)
    requires y <= height && Offset(height, width + 1) <= |data|
  {
    GoodRows(data, width, height, 0) == y + GoodRows(data, width, height, y)
  }

  lemma NextGoodRow(data: seq<Byte>, width: nat, height: nat, y: nat)
    requires y < height && Offset(height, width + 1) <= |data| && GoodSoFar(data, width, height, y)
    ensures if FilterType(data, width, height, y) <= 4 then GoodSoFar(data, width, height, y + 1)
            else GoodRows(data, width, height, 0) == y
  {
  }

  /** The row above row `y` of an image. */
  function Above(rows: seq<seq<Byte>>, width: nat, y: nat): (r: seq<Byte>)
    requires y < |rows| && forall y :: 0 <= y < |rows| ==> |rows[y]| == width
    ensures |r| == width
  {
    if y == 0 then Zeros(width) else rows[y - 1]
  }

  /** One filtered row with the byte that says how. */
  function FilteredBytes(rows: seq<seq<Byte>>, filters: seq<Byte>, width: nat, y: nat): (r: seq<Byte>)
    requires |rows| == |filters| && forall y :: 0 <= y < |rows| ==> |rows[y]| == width
    requires y < |rows|
    ensures |r| == width + 1
  {
    [filters[y]] + Filter(filters[y], rows[y], Above(rows, width, y))
  }

  /** The filtered form of an image, with a filter chosen for every row. */
  function FilterImage(rows: seq<seq<Byte>>, filters: seq<Byte>, width: nat): (r: seq<Byte>)
    requires |rows| == |filters| && forall y :: 0 <= y < |rows| ==> |rows[y]| == width
    ensures |r| == Offset(|rows|, width + 1)
  {
    if rows == [] then []
    else
      var y := |rows| - 1;
      FilterImage(rows[..y], filters[..y], width) + FilteredBytes(rows, filters, width, y)
  }

  /** Row `y` of the filtered form. */
  lemma {:induction false} FilteredImageRow(rows: seq<seq<Byte>>, filters: seq<Byte>, width: nat, y: nat)
    requires |rows| == |filters| && forall y :: 0 <= y < |rows| ==> |rows[y]| == width
    requires y < |rows|
    ensures Row(FilterImage(rows, filters, width), width + 1, |rows|, y) == FilteredBytes(rows, filters, width, y)
    decreases |rows|
  {
    var last := |rows| - 1;
    var shorter, part := FilterImage(rows[..last], filters[..last], width), FilteredBytes(rows, filters, width, last);
    assert FilterImage(rows, filters, width) == shorter + part;
    if y < last {
      FilteredImageRow(rows[..last], filters[..last], width, y);
      RowOfPrefix(shorter, shorter + part, width + 1, last, y);
      BytesOfPrefix(rows, filters, width, last, y);
    } else {
      LastRow(shorter, part, width + 1, last);
    }
  }

  lemma BytesOfPrefix(rows: seq<seq<Byte>>, filters: seq<Byte>, width: nat, n: nat, y: nat)
    requires |rows| == |filters| && forall y :: 0 <= y < |rows| ==> |rows[y]| == width
    requires y < n <= |rows|
    ensures FilteredBytes(rows[..n], filters[..n], width, y) == FilteredBytes(rows, filters, width, y)
  {
    assert Above(rows[..n], width, y) == Above(rows, width, y);
  }

  lemma LastRow(shorter: seq<Byte>, part: seq<Byte>, width: nat, height: nat)
    requires |shorter| == Offset(height, width) && |part| == width
    ensures Row(shorter + part, width, height + 1, height) == part
  {
  }

  lemma RowOfPrefix(shorter: seq<Byte>, longer: seq<Byte>, width: nat, height: nat, y: nat)
    requires y < height && |shorter| == Offset(height, width) && |longer| == Offset(height + 1, width)
    requires longer[..|shorter|] == shorter
    ensures Row(longer, width, height + 1, y) == Row(shorter, width, height, y)
  {
    OffsetMonotone(y, height, width);
    OffsetMonotone(y, height + 1, width);
    assert longer[..|shorter|][Offset(y, width)..Offset(y, width) + width]
        == longer[Offset(y, width)..Offset(y, width) + width];
  }

  /** The rows put back from the filtered form of an image are its rows. */
  lemma {:induction false} UnfilterImage(rows: seq<seq<Byte>>, filters: seq<Byte>, width: nat, y: nat)
    requires |rows| == |filters| && forall y :: 0 <= y < |rows| ==> |rows[y]| == width
    requires y < |rows|
    ensures UnfilteredRow(FilterImage(rows, filters, width), width, |rows|, y) == rows[y]
    decreases y
  {
    FilteredImageRow(rows, filters, width, y);
    if y > 0 {
      UnfilterImage(rows, filters, width, y - 1);
    }
    var above := Above(rows, width, y);
    UnfilterFilter(filters[y], rows[y], above, width);
    assert FilteredRow(FilterImage(rows, filters, width), width, |rows|, y) == Filter(filters[y], rows[y], above);
  }

  lemma {:induction false} GoodFilters(rows: seq<seq<Byte>>, filters: seq<Byte>, width: nat, y: nat)
    requires |rows| == |filters| && forall y :: 0 <= y < |rows| ==> |rows[y]| == width
    requires forall y :: 0 <= y < |filters| ==> filters[y] <= 4
    requires y <= |rows|
    ensures GoodRows(FilterImage(rows, filters, width), width, |rows|, y) == |rows| - y
    decreases |rows| - y
  {
    if y < |rows| {
      FilteredImageRow(rows, filters, width, y);
      GoodFilters(rows, filters, width, y + 1);
    }
  }

  // ----- The loader

  /** The first `n` rows of the bitmap are those of the data; all other bytes are as before. */
  ghost predicate Written(data: seq<Byte>, width: nat, height: nat, n: nat, bitmap: seq<Byte>, before: seq<Byte>)
    requires n <= height && Offset(height, width + 1) <= |data|
    requires |bitmap| == |before| == Offset(height, BytesPerLine(width))
  {
    forall y: nat :: y < height ==>
      Row(bitmap, BytesPerLine(width), height, y)
      == if y < n then UnfilteredRow(data, width, height, y) + Row(before, BytesPerLine(width), height, y)[width..]
         else Row(before, BytesPerLine(width), height, y)
  }

  /** The first `x` bytes of the row are put back. */
  ghost predicate PartDone(filterType: Byte, filtered: seq<Byte>, previous: seq<Byte>, x: nat, cur: seq<Byte>)
    requires x <= |filtered| == |previous|
  {
    cur == Unfilter(filterType, filtered, previous, x) + filtered[x..]
  }

  /** Byte `x` put back in place. */
  ghost function PutBack(filterType: Byte, cur: seq<Byte>, previous: seq<Byte>, x: nat): seq<Byte>
    requires x < |cur| == |previous|
  {
    cur[x := (cur[x] + Estimate(filterType, cur, previous, x)) % 256]
  }

  lemma NextByte(filterType: Byte, filtered: seq<Byte>, previous: seq<Byte>, x: nat, cur: seq<Byte>)
    requires x < |filtered| == |previous| && PartDone(filterType, filtered, previous, x, cur)
    ensures |cur| == |filtered|
    ensures PartDone(filterType, filtered, previous, x + 1, PutBack(filterType, cur, previous, x))
  {
    var row := Unfilter(filterType, filtered, previous, x);
    assert Before(cur, x) == Before(row, x);
  }

  /** Adds its estimate to the next byte. */
  method AddEstimate(row: array<Byte>, x: nat, estimate: Byte,
                     ghost filterType: Byte, ghost filtered: seq<Byte>, ghost previous: seq<Byte>)
    requires x < row.Length == |filtered| == |previous| && PartDone(filterType, filtered, previous, x, row[..])
    requires estimate == Estimate(filterType, row[..], previous, x)
    modifies row
    ensures PartDone(filterType, filtered, previous, x + 1, row[..])
  {
    NextByte(filterType, filtered, previous, x, row[..]);
    ghost var next := PutBack(filterType, row[..], previous, x);
    var sum: int := row[x];
    row[x] := (sum + estimate) % 256;
    assert row[..] == next;
  }

  /** Filter 1: the byte to the left. */
  method UndoSub(currentRow: array<Byte>, previousRow: array<Byte>)
    requires currentRow != previousRow && currentRow.Length == previousRow.Length
    modifies currentRow
    ensures currentRow[..] == Unfilter(1, old(currentRow[..]), previousRow[..], currentRow.Length)
  {
    ghost var filtered, previous := currentRow[..], previousRow[..];
    for x := 0 to currentRow.Length
      invariant PartDone(1, filtered, previous, x, currentRow[..])
    {
      var left: Byte := if x >= 1 then currentRow[x - 1] else 0;
      AddEstimate(currentRow, x, left, 1, filtered, previous);
    }
  }

  /** Filter 2: the byte above. */
  method UndoUp(currentRow: array<Byte>, previousRow: array<Byte>)
    requires currentRow != previousRow && currentRow.Length == previousRow.Length
    modifies currentRow
    ensures currentRow[..] == Unfilter(2, old(currentRow[..]), previousRow[..], currentRow.Length)
  {
    ghost var filtered, previous := currentRow[..], previousRow[..];
    for x := 0 to currentRow.Length
      invariant PartDone(2, filtered, previous, x, currentRow[..])
    {
      var above: Byte := previousRow[x];
      AddEstimate(currentRow, x, above, 2, filtered, previous);
    }
  }

  /** Filter 3: the mean of the two, rounded down. */
  method UndoAverage(currentRow: array<Byte>, previousRow: array<Byte>)
    requires currentRow != previousRow && currentRow.Length == previousRow.Length
    modifies currentRow
    ensures currentRow[..] == Unfilter(3, old(currentRow[..]), previousRow[..], currentRow.Length)
  {
    ghost var filtered, previous := currentRow[..], previousRow[..];
    for x := 0 to currentRow.Length
      invariant PartDone(3, filtered, previous, x, currentRow[..])
    {
      var left: int := if x >= 1 then currentRow[x - 1] else 0;
      var above: int := previousRow[x];
      var mean: Byte := (left + above) / 2;
      AddEstimate(currentRow, x, mean, 3, filtered, previous);
    }
  }

  /** Filter 4: the closest of three neighbours. */
  method UndoPaeth(currentRow: array<Byte>, previousRow: array<Byte>)
    requires currentRow != previousRow && currentRow.Length == previousRow.Length
    modifies currentRow
    ensures currentRow[..] == Unfilter(4, old(currentRow[..]), previousRow[..], currentRow.Length)
  {
    ghost var filtered, previous := currentRow[..], previousRow[..];
    for x := 0 to currentRow.Length
      invariant PartDone(4, filtered, previous, x, currentRow[..])
    {
      var left: Byte := if x >= 1 then currentRow[x - 1] else 0;
      var upperLeft: Byte := if x >= 1 then previousRow[x - 1] else 0;
      var predicted := PaethPredictor(left, previousRow[x], upperLeft);
      AddEstimate(currentRow, x, predicted, 4, filtered, previous);
    }
  }

  /** One row in place; `false` for a filter the standard does not have. */
  method UnfilterRow(filterType: Byte, currentRow: array<Byte>, previousRow: array<Byte>) returns (ok: bool)
    requires currentRow != previousRow && currentRow.Length == previousRow.Length
    modifies currentRow
    ensures ok == (filterType <= 4)
    ensures ok ==> currentRow[..] == Unfilter(filterType, old(currentRow[..]), previousRow[..], currentRow.Length)
  {
    ok := true;
    match filterType {
      case 0 => NoFilter(currentRow[..], previousRow[..], currentRow.Length);
      case 1 => UndoSub(currentRow, previousRow);
      case 2 => UndoUp(currentRow, previousRow);
      case 3 => UndoAverage(currentRow, previousRow);
      case 4 => UndoPaeth(currentRow, previousRow);
      case _ => ok := false;
    }
  }

  lemma {:induction false} NoFilter(filtered: seq<Byte>, previous: seq<Byte>, n: nat)
    requires n <= |filtered| == |previous|
    ensures Unfilter(0, filtered, previous, n) == filtered[..n]
  {
    if n > 0 {
      NoFilter(filtered, previous, n - 1);
    }
  }

  /**
   Puts the rows of an image back and writes them to the bitmap. The rows before
   a bad filter have been written by the time it is found.
   */
  method ApplyFilters(data: seq<Byte>, width: nat, height: nat, bitmap: array<Byte>) returns (r: Result<(), Error>)
    requires bitmap.Length == Offset(height, BytesPerLine(width))
    modifies bitmap
    ensures |data| < height * (width + 1) ==> r == Failure(TooSmall) && bitmap[..] == old(bitmap[..])
    ensures |data| >= height * (width + 1) ==>
      && Offset(height, width + 1) <= |data|
      && r == (if GoodRows(data, width, height, 0) == height then Success(()) else Failure(UnsupportedFilter))
      && Written(data, width, height, GoodRows(data, width, height, 0), bitmap[..], old(bitmap[..]))
  {
    OffsetIsProduct(height, width + 1);
    var expectedSize := height * (width + 1);
    if |data| < expectedSize {
      return Failure(TooSmall);
    }
    var ok := ApplyRows(data, width, height, bitmap);
    r := if ok then Success(()) else Failure(UnsupportedFilter);
  }

  /** The loop over the rows, which keeps the row just put back as the one above the next. */
  method ApplyRows(data: seq<Byte>, width: nat, height: nat, bitmap: array<Byte>) returns (ok: bool)
    requires bitmap.Length == Offset(height, BytesPerLine(width)) && Offset(height, width + 1) <= |data|
    modifies bitmap
    ensures ok == (GoodRows(data, width, height, 0) == height)
    ensures Written(data, width, height, GoodRows(data, width, height, 0), bitmap[..], old(bitmap[..]))
  {
    var previousRow := new Byte[width](_ => 0);
    var currentRow := new Byte[width](_ => 0);
    for y := 0 to height
      invariant currentRow != previousRow && currentRow != bitmap && previousRow != bitmap
      invariant fresh(currentRow) && fresh(previousRow) && currentRow.Length == previousRow.Length == width
      invariant previousRow[..] == RowAbove(data, width, height, y) && GoodSoFar(data, width, height, y)
      invariant Written(data, width, height, y, bitmap[..], old(bitmap[..]))
    {
      ok := ReadRow(data, width, height, y, currentRow, previousRow);
      NextGoodRow(data, width, height, y);
      if !ok {
        return;
      }
      WriteLine(data, width, height, y, currentRow[..], bitmap, old(bitmap[..]));
      currentRow, previousRow := previousRow, currentRow;
      Clear(currentRow);
    }
    ok := true;
  }

  lemma RowInData(data: seq<Byte>, width: nat, height: nat, y: nat)
    requires y < height && Offset(height, width + 1) <= |data|
    ensures Offset(y, width + 1) + 1 + width <= |data|
    ensures data[Offset(y, width + 1)] == FilterType(data, width, height, y)
    ensures data[Offset(y, width + 1) + 1..Offset(y, width + 1) + 1 + width] == FilteredRow(data, width, height, y)
    ensures UnfilteredRow(data, width, height, y)
         == Unfilter(FilterType(data, width, height, y), FilteredRow(data, width, height, y),
                     RowAbove(data, width, height, y), width)
  {
    OffsetMonotone(y, height, width + 1);
  }

  /** Copies row `y` of the data and undoes its filter. */
  method ReadRow(data: seq<Byte>, width: nat, height: nat, y: nat, currentRow: array<Byte>, previousRow: array<Byte>)
    returns (ok: bool)
    requires y < height && Offset(height, width + 1) <= |data|
    requires currentRow != previousRow && currentRow.Length == previousRow.Length == width
    requires previousRow[..] == RowAbove(data, width, height, y)
    modifies currentRow
    ensures ok == (FilterType(data, width, height, y) <= 4)
    ensures ok ==> currentRow[..] == UnfilteredRow(data, width, height, y)
  {
    OffsetMonotone(y, height, width + 1);
    var srcOffset := Offset(y, width + 1);
    var filterType := data[srcOffset];
    srcOffset := srcOffset + 1;
    RowInData(data, width, height, y);
    CopyInto(data, srcOffset, currentRow);
    ok := UnfilterRow(filterType, currentRow, previousRow);
  }

  /** Row `y` of the bitmap, but not the bytes that fill it up to a multiple of four. */
  method WriteLine(ghost data: seq<Byte>, width: nat, height: nat, y: nat, input: seq<Byte>, bitmap: array<Byte>,
                   ghost before: seq<Byte>)
    requires y < height && bitmap.Length == |before| == Offset(height, BytesPerLine(width))
    requires Offset(height, width + 1) <= |data| && input == UnfilteredRow(data, width, height, y)
    requires Written(data, width, height, y, bitmap[..], before)
    modifies bitmap
    ensures Written(data, width, height, y + 1, bitmap[..], before)
  {
    WriteLineRows(data, width, height, y, bitmap[..], before);
    CopyAll(input, bitmap, Offset(y, BytesPerLine(width)));
  }

  lemma WriteLineRows(data: seq<Byte>, width: nat, height: nat, y: nat, bitmap: seq<Byte>, before: seq<Byte>)
    requires y < height && |bitmap| == |before| == Offset(height, BytesPerLine(width))
    requires Offset(height, width + 1) <= |data| && Written(data, width, height, y, bitmap, before)
    ensures Offset(y, BytesPerLine(width)) + BytesPerLine(width) <= |bitmap|
    ensures Written(data, width, height, y + 1,
                    Splice(bitmap, Offset(y, BytesPerLine(width)), UnfilteredRow(data, width, height, y)), before)
  {
    var stride := BytesPerLine(width);
    var row := UnfilteredRow(data, width, height, y);
    OffsetMonotone(y, height, stride);
    var whole := row + Row(bitmap, stride, height, y)[width..];
    assert Splice(bitmap, Offset(y, stride), row) == Splice(bitmap, Offset(y, stride), whole);
    forall other: nat | other < height
      ensures Row(Splice(bitmap, Offset(y, stride), whole), stride, height, other)
           == if other == y then whole else Row(bitmap, stride, height, other)
    {
      RowAfterSplice(bitmap, stride, height, y, whole, other);
    }
  }

  method Clear(row: array<Byte>)
    modifies row
    ensures row[..] == Zeros(row.Length)
  {
    for x := 0 to row.Length
      invariant row[..x] == Zeros(x)
    {
      row[x] := 0;
    }
  }

  /** Loading the filtered form of an image brings the image back, whichever filters the encoder chose. */
  lemma LoadFiltered(rows: seq<seq<Byte>>, filters: seq<Byte>, width: nat, bitmap: seq<Byte>, before: seq<Byte>, y: nat)
    requires |rows| == |filters| && forall y :: 0 <= y < |rows| ==> |rows[y]| == width
    requires forall y :: 0 <= y < |filters| ==> filters[y] <= 4
    requires |bitmap| == |before| == Offset(|rows|, BytesPerLine(width))
    requires var data := FilterImage(rows, filters, width);
      Written(data, width, |rows|, GoodRows(data, width, |rows|, 0), bitmap, before)
    requires y < |rows|
    ensures GoodRows(FilterImage(rows, filters, width), width, |rows|, 0) == |rows|
    ensures Row(bitmap, BytesPerLine(width), |rows|, y)[..width] == rows[y]
  {
    GoodFilters(rows, filters, width, 0);
    UnfilterImage(rows, filters, width, y);
  }
}
