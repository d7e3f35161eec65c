/** Block copies, and rows stored one after the other. */
module Memory {

  /** `base` with `part` written over it from position `to` on. */
  function Splice<T>(base: seq<T>, to: nat, part: seq<T>): (r: seq<T>)
    requires to + |part| <= |base|
    ensures |r| == |base|
  {
    base[..to] + part + base[to + |part|..]
  }

  lemma SpliceAll<T>(base: seq<T>, part: seq<T>)
    requires |part| == |base|
    ensures Splice(base, 0, part) == part
  {
  }

  /** `std::copy_n` and `memcpy`: copies `n` elements of `src` from `from` on to `dst` from `to` on. */
  method CopyN<T>(src: seq<T>, from: nat, dst: array<T>, to: nat, n: nat)
    requires from + n <= |src| && to + n <= dst.Length
    modifies dst
    ensures dst[..] == Splice(old(dst[..]), to, src[from..from + n])
  {
    ghost var before := dst[..];
    for i := 0 to n
      invariant dst[..] == Splice(before, to, src[from..from + i])
    {
      dst[to + i] := src[from + i];
    }
  }

  /** Fills `dst` with what is at `from`. */
  method CopyInto<T>(src: seq<T>, from: nat, dst: array<T>)
    requires from + dst.Length <= |src|
    modifies dst
    ensures dst[..] == src[from..from + dst.Length]
  {
    SpliceAll(dst[..], src[from..from + dst.Length]);
    CopyN(src, from, dst, 0, dst.Length);
  }

  /** Copies all of `src`. */
  method CopyAll<T>(src: seq<T>, dst: array<T>, to: nat)
    requires to + |src| <= dst.Length
    modifies dst
    ensures dst[..] == Splice(old(dst[..]), to, src)
  {
    assert src[0..0 + |src|] == src;
    CopyN(src, 0, dst, to, |src|);
  }

  /** Where row `row` begins when every row is `width` long: `row * width`. */
  function Offset(row: nat, width: nat): nat
  {
    if row == 0 then 0 else Offset(row - 1, width) + width
  }

  lemma {:induction false} OffsetIsProduct(row: nat, width: nat)
    ensures Offset(row, width) == row * width
  {
    if row > 0 {
      OffsetIsProduct(row - 1, width);
      assert row * width == (row - 1) * width + width;
    }
  }

  /** A row ends before a later one begins. */
  lemma {:induction false} OffsetMonotone(a: nat, b: nat, width: nat)
    requires a < b
    ensures Offset(a, width) + width <= Offset(b, width)
    decreases b
  {
    if a < b - 1 {
      OffsetMonotone(a, b - 1, width);
    }
  }

  /** Every place belongs to some row. */
  lemma {:induction false} RowOf(i: nat, width: nat, height: nat) returns (row: nat)
    requires i < Offset(height, width)
    ensures row < height && Offset(row, width) <= i < Offset(row, width) + width
    decreases height
  {
    if i < Offset(height - 1, width) {
      row := RowOf(i, width, height - 1);
    } else {
      row := height - 1;
    }
  }

  /** Row `row` of `height` rows that are `width` long. */
  function Row<T>(data: seq<T>, width: nat, height: nat, row: nat): (r: seq<T>)
    requires row < height && Offset(height, width) <= |data|
    ensures |r| == width
  {
    OffsetMonotone(row, height, width);
    data[Offset(row, width)..Offset(row, width) + width]
  }

  /** Writing one row leaves the others alone. */
  lemma RowAfterSplice<T>(data: seq<T>, width: nat, height: nat, row: nat, part: seq<T>, other: nat)
    requires row < height && other < height && Offset(height, width) <= |data| && |part| == width
    ensures Offset(row, width) + width <= |data|
    ensures Row(Splice(data, Offset(row, width), part), width, height, other)
         == if other == row then part else Row(data, width, height, other)
  {
    OffsetMonotone(row, height, width);
    OffsetMonotone(other, height, width);
    if other < row {
      OffsetMonotone(other, row, width);
    } else if row < other {
      OffsetMonotone(row, other, width);
    }
  }

  /** Data of the same size with the same rows are the same. */
  lemma {:induction false} RowsDetermine<T>(a: seq<T>, b: seq<T>, width: nat, height: nat)
    requires |a| == |b| == Offset(height, width)
    requires forall r: nat :: r < height ==> Row(a, width, height, r) == Row(b, width, height, r)
    ensures a == b
    decreases height
  {
    if height > 0 {
      var h := height - 1;
      var a', b' := a[..Offset(h, width)], b[..Offset(h, width)];
      forall r: nat | r < h
        ensures Row(a', width, h, r) == Row(b', width, h, r)
      {
        OffsetMonotone(r, h, width);
        assert Row(a', width, h, r) == Row(a, width, height, r);
        assert Row(b', width, h, r) == Row(b, width, height, r);
      }
      RowsDetermine(a', b', width, h);
      assert a == a' + Row(a, width, height, h);
      assert b == b' + Row(b, width, height, h);
    }
  }

  /** The bytes from one line of an 8-bit bitmap to the next: the width, rounded up to a multiple of four. */
  function BytesPerLine(width: nat): (r: nat)
    ensures width <= r < width + 4 && r % 4 == 0
  {
    (width * 8 + 31) / 32 * 4
  }
}
