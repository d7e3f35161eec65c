/** One image of a GIF file: data sub-blocks, LZW data, interlaced rows. */
module GifImage {
  import opened Wrappers
  import opened Bits
  import opened Memory
  import opened Streams
  import Dec = GifLzwDecoder
  import Enc = GifLzwEncoder

  // ----- Sub-blocks

  /** Puts data read earlier in front of the payload of later sub-blocks. */
  function Join(front: seq<Byte>, rest: Option<(seq<Byte>, seq<Byte>)>): Option<(seq<Byte>, seq<Byte>)>
  {
    if rest.None? then None else Some((front + rest.value.0, rest.value.1))
  }

  lemma JoinTwice(a: seq<Byte>, b: seq<Byte>, rest: Option<(seq<Byte>, seq<Byte>)>)
    ensures Join([], rest) == rest
    ensures Join(a, Join(b, rest)) == Join(a + b, rest)
  {
    if rest.Some? {
      assert [] + rest.value.0 == rest.value.0;
      assert a + (b + rest.value.0) == a + b + rest.value.0;
    }
  }

  /** The payload of the sub-blocks at the start of `bytes`, and what follows their terminator. */
  function Unblock(bytes: seq<Byte>): Option<(seq<Byte>, seq<Byte>)>
    decreases |bytes|
  {
    if bytes == [] then None
    else
      var (size, rest) := (bytes[0], bytes[1..]);
      if size == 0 then Some(([], rest))
      else if |rest| < size then None
      else Join(rest[..size], Unblock(rest[size..]))
  }

  /** Sub-blocks as GIF89a, section 15, lays them out. */
  function Blocks(blocks: seq<seq<Byte>>): seq<Byte>
    requires forall b :: b in blocks ==> 0 < |b| < 256
  {
    if blocks == [] then [0] else [|blocks[0]|] + blocks[0] + Blocks(blocks[1..])
  }

  function Flatten(blocks: seq<seq<Byte>>): seq<Byte>
  {
    if blocks == [] then [] else blocks[0] + Flatten(blocks[1..])
  }

  lemma FirstBlock(bytes: seq<Byte>, b: seq<Byte>, more: seq<Byte>, tail: seq<Byte>)
    requires 0 < |b| < 256 && bytes == [|b|] + b + more + tail
    ensures bytes[0] == |b| && |b| <= |bytes[1..]| && bytes[1..][..|b|] == b && bytes[1..][|b|..] == more + tail
  {
  }

  /** However the data were split up, the reader puts them together again and stops after the terminator. */
  lemma {:induction false} UnblockBlocks(blocks: seq<seq<Byte>>, tail: seq<Byte>)
    requires forall b :: b in blocks ==> 0 < |b| < 256
    ensures Unblock(Blocks(blocks) + tail) == Some((Flatten(blocks), tail))
  {
    var bytes := Blocks(blocks) + tail;
    if blocks == [] {
      assert bytes[1..] == tail;
    } else {
      var b := blocks[0];
      UnblockBlocks(blocks[1..], tail);
      FirstBlock(bytes, b, Blocks(blocks[1..]), tail);
    }
  }

  /** Whatever the reader accepts is a list of sub-blocks and their terminator. */
  lemma {:induction false} UnblockedAreBlocks(bytes: seq<Byte>) returns (blocks: seq<seq<Byte>>, tail: seq<Byte>)
    requires Unblock(bytes).Some?
    ensures (forall b :: b in blocks ==> 0 < |b| < 256) && bytes == Blocks(blocks) + tail
    ensures Unblock(bytes) == Some((Flatten(blocks), tail))
    decreases |bytes|
  {
    var size, rest := bytes[0], bytes[1..];
    if size == 0 {
      blocks, tail := [], rest;
    } else {
      var behind;
      behind, tail := UnblockedAreBlocks(rest[size..]);
      blocks := [rest[..size]] + behind;
      BlockInFront(rest[..size], behind, tail, rest[size..]);
      Regrouped(bytes, size, rest[..size], rest[size..]);
    }
  }

  lemma Regrouped(bytes: seq<Byte>, size: Byte, block: seq<Byte>, behind: seq<Byte>)
    requires bytes != [] && bytes[0] == size && bytes[1..] == block + behind
    ensures bytes == [size] + block + behind
  {
  }

  lemma BlockInFront(b: seq<Byte>, blocks: seq<seq<Byte>>, tail: seq<Byte>, rest: seq<Byte>)
    requires 0 < |b| < 256 && (forall c :: c in blocks ==> 0 < |c| < 256) && rest == Blocks(blocks) + tail
    ensures forall c :: c in [b] + blocks ==> 0 < |c| < 256
    ensures Blocks([b] + blocks) + tail == [|b|] + b + rest && Flatten([b] + blocks) == b + Flatten(blocks)
  {
    assert ([b] + blocks)[1..] == blocks;
  }

  /** Nothing is returned when the stream ends before the terminator. */
  method ReadCompressedImageData(stream: Stream) returns (compressedData: seq<Byte>)
    requires stream.Valid()
    modifies stream
    ensures stream.Valid()
    ensures var u := Unblock(old(stream.Ahead()));
            if u.None? then compressedData == []
            else compressedData == u.value.0 && stream.Ahead() == u.value.1
  {
    compressedData := [];
    ghost var all := Unblock(stream.Ahead());
    JoinTwice([], [], all);
    while true
      invariant stream.Valid() && all == Join(compressedData, Unblock(stream.Ahead()))
      decreases |stream.Ahead()|
    {
      var size := stream.Read(1);
      if size.None? {
        return [];
      }
      var blockSize := size.value[0];
      if blockSize == 0 {
        assert compressedData + [] == compressedData;
        break;
      }
      var blockData := stream.Read(blockSize);
      if blockData.None? {
        return [];
      }
      JoinTwice(compressedData, blockData.value, Unblock(stream.Ahead()));
      compressedData := compressedData + blockData.value;
    }
  }

  // ----- Interlacing

  /** Rows `start`, `start + step`, and so on, below `height`. */
  function RowsFrom(start: nat, step: nat, height: nat): seq<nat>
    requires step > 0
    decreases height - start
  {
    if start >= height then [] else [start] + RowsFrom(start + step, step, height)
  }

  /** The order in which GIF89a, Appendix E, stores the rows of an interlaced image. */
  function InterlaceOrder(height: nat): seq<nat>
  {
    RowsFrom(0, 8, height) + RowsFrom(4, 8, height) + RowsFrom(2, 4, height) + RowsFrom(1, 2, height)
  }

  /** The passes of the decoder: first row and step. */
  function Pass(p: nat): (r: (nat, nat))
    ensures r.1 > 0
  {
    if p == 0 then (0, 8) else if p == 1 then (4, 8) else if p == 2 then (2, 4) else (1, 2)
  }

  /** The rows of the passes from `p` on. */
  function RowsOfPasses(p: nat, height: nat): seq<nat>
    requires p <= 4
    decreases 4 - p
  {
    if p == 4 then [] else RowsFrom(Pass(p).0, Pass(p).1, height) + RowsOfPasses(p + 1, height)
  }

  lemma PassesAreTheOrder(height: nat)
    ensures RowsOfPasses(0, height) == InterlaceOrder(height)
  {
    assert RowsOfPasses(4, height) == [];
    assert RowsOfPasses(3, height) == RowsFrom(1, 2, height);
    assert RowsOfPasses(2, height) == RowsFrom(2, 4, height) + RowsFrom(1, 2, height);
    assert RowsOfPasses(1, height) == RowsFrom(4, 8, height) + RowsOfPasses(2, height);
  }

  ghost predicate NoDuplicates(s: seq<nat>)
  {
    forall i, j :: 0 <= i < j < |s| ==> s[i] != s[j]
  }

  lemma NoDuplicatesConcat(a: seq<nat>, b: seq<nat>)
    requires NoDuplicates(a) && NoDuplicates(b) && forall x :: x in a ==> x !in b
    ensures NoDuplicates(a + b)
  {
    forall i, j | 0 <= i < j < |a + b|
      ensures (a + b)[i] != (a + b)[j]
    {
      if i < |a| <= j {
        assert a[i] in a && b[j - |a|] in b;
      }
    }
  }

  predicate PassStep(step: nat) { step == 2 || step == 4 || step == 8 }

  /** `r` is a whole number of steps from `start`. */
  predicate InPass(r: nat, start: nat, step: nat)
    requires PassStep(step)
  {
    if step == 2 then r % 2 == start % 2 else if step == 4 then r % 4 == start % 4 else r % 8 == start % 8
  }

  lemma InPassShift(r: nat, start: nat, step: nat)
    requires PassStep(step)
    ensures InPass(r, start + step, step) <==> InPass(r, start, step)
    ensures start < r < start + step ==> !InPass(r, start, step)
  {
    if step == 2 {
      Shift2(r, start);
    } else if step == 4 {
      Shift4(r, start);
    } else {
      Shift8(r, start);
    }
  }

  lemma Shift2(r: nat, s: nat)
    ensures (s + 2) % 2 == s % 2 && (s < r < s + 2 ==> r % 2 != s % 2)
  {
  }

  lemma Shift4(r: nat, s: nat)
    ensures (s + 4) % 4 == s % 4 && (s < r < s + 4 ==> r % 4 != s % 4)
  {
  }

  lemma Shift8(r: nat, s: nat)
    ensures (s + 8) % 8 == s % 8 && (s < r < s + 8 ==> r % 8 != s % 8)
  {
  }

  lemma {:induction false} RowsFromMember(start: nat, step: nat, height: nat, r: nat)
    requires PassStep(step)
    ensures r in RowsFrom(start, step, height) <==> start <= r < height && InPass(r, start, step)
    decreases height - start
  {
    if start < height {
      RowsFromMember(start + step, step, height, r);
      InPassShift(r, start, step);
    }
  }

  lemma {:induction false} RowsFromNoDuplicates(start: nat, step: nat, height: nat)
    requires PassStep(step)
    ensures NoDuplicates(RowsFrom(start, step, height))
    decreases height - start
  {
    if start < height {
      RowsFromNoDuplicates(start + step, step, height);
      RowsFromMember(start + step, step, height, start);
      NoDuplicatesConcat([start], RowsFrom(start + step, step, height));
    }
  }

  lemma {:induction false} RowsFromCount(start: nat, step: nat, height: nat)
    requires PassStep(step)
    ensures step == 2 ==> |RowsFrom(start, 2, height)| == if height <= start then 0 else (height - start + 1) / 2
    ensures step == 4 ==> |RowsFrom(start, 4, height)| == if height <= start then 0 else (height - start + 3) / 4
    ensures step == 8 ==> |RowsFrom(start, 8, height)| == if height <= start then 0 else (height - start + 7) / 8
    decreases height - start
  {
    if start < height {
      RowsFromCount(start + step, step, height);
    }
  }

  lemma {:induction false} RowsFromAt(start: nat, step: nat, height: nat, k: nat)
    requires PassStep(step) && start + k * step < height
    ensures k < |RowsFrom(start, step, height)| && RowsFrom(start, step, height)[k] == start + k * step
    decreases k
  {
    if k > 0 {
      assert k * step == step + (k - 1) * step;
      RowsFromAt(start + step, step, height, k - 1);
    }
  }

  /** The row of the file that holds row `r` of an interlaced image: every eighth row, those between, every fourth, the rest. */
  function StoredPlace(r: nat, height: nat): nat
  {
    if r % 8 == 0 then r / 8
    else if r % 8 == 4 then (height + 7) / 8 + r / 8
    else if r % 4 == 2 then (height + 7) / 8 + (height + 3) / 8 + r / 4
    else (height + 7) / 8 + (height + 3) / 8 + (height + 1) / 4 + r / 2
  }

  lemma PassOf(r: nat)
    ensures if r % 8 == 0 then r == r / 8 * 8 else if r % 8 == 4 then r == 4 + r / 8 * 8
            else if r % 4 == 2 then r == 2 + r / 4 * 4 else r % 2 == 1 && r == 1 + r / 2 * 2
  {
    PassParts(r / 8, r % 8);
  }

  lemma PassParts(q: nat, s: nat)
    requires s < 8
    ensures var r := 8 * q + s; r / 4 == 2 * q + s / 4 && r % 4 == s % 4 && r / 2 == 4 * q + s / 2 && r % 2 == s % 2
  {
  }

  lemma InterlaceOrderPlace(height: nat, r: nat)
    requires r < height
    ensures StoredPlace(r, height) < |InterlaceOrder(height)| && InterlaceOrder(height)[StoredPlace(r, height)] == r
  {
    PassOf(r);
    PassCounts(height);
    if r % 8 == 0 {
      RowsFromAt(0, 8, height, r / 8);
    } else if r % 8 == 4 {
      RowsFromAt(4, 8, height, r / 8);
    } else if r % 4 == 2 {
      RowsFromAt(2, 4, height, r / 4);
    } else {
      RowsFromAt(1, 2, height, r / 2);
    }
  }

  lemma PassCounts(height: nat)
    ensures |RowsFrom(0, 8, height)| == (height + 7) / 8 && |RowsFrom(4, 8, height)| == (height + 3) / 8
    ensures |RowsFrom(2, 4, height)| == (height + 1) / 4
  {
    RowsFromCount(0, 8, height);
    RowsFromCount(4, 8, height);
    RowsFromCount(2, 4, height);
  }

  lemma InterlaceOrderMember(height: nat, r: nat)
    ensures r in InterlaceOrder(height) <==> r < height
    ensures r in RowsFrom(0, 8, height) ==> r !in RowsFrom(4, 8, height)
    ensures r in RowsFrom(0, 8, height) + RowsFrom(4, 8, height) ==> r !in RowsFrom(2, 4, height)
    ensures r in RowsFrom(0, 8, height) + RowsFrom(4, 8, height) + RowsFrom(2, 4, height)
            ==> r !in RowsFrom(1, 2, height)
  {
    RowsFromMember(0, 8, height, r);
    RowsFromMember(4, 8, height, r);
    RowsFromMember(2, 4, height, r);
    RowsFromMember(1, 2, height, r);
  }

  /** Every row below `height` is stored exactly once. */
  lemma InterlaceOrderIsPermutation(height: nat)
    ensures |InterlaceOrder(height)| == height
    ensures NoDuplicates(InterlaceOrder(height))
    ensures forall r: nat :: r in InterlaceOrder(height) <==> r < height
  {
    var a, b, c, d := RowsFrom(0, 8, height), RowsFrom(4, 8, height), RowsFrom(2, 4, height), RowsFrom(1, 2, height);
    forall r: nat {
      InterlaceOrderMember(height, r);
    }
    InterlaceOrderCount(height);
    assert NoDuplicates(a + b + c + d) by {
      RowsFromNoDuplicates(0, 8, height);
      RowsFromNoDuplicates(4, 8, height);
      RowsFromNoDuplicates(2, 4, height);
      RowsFromNoDuplicates(1, 2, height);
      NoDuplicatesConcat(a, b);
      NoDuplicatesConcat(a + b, c);
      NoDuplicatesConcat(a + b + c, d);
    }
  }

  lemma InterlaceOrderCount(height: nat)
    ensures |InterlaceOrder(height)| == height
  {
    RowsFromCount(0, 8, height);
    RowsFromCount(4, 8, height);
    RowsFromCount(2, 4, height);
    RowsFromCount(1, 2, height);
    PassSizes(height / 8, height % 8);
  }

  lemma PassSizes(q: nat, r: nat)
    requires r < 8
    ensures var h := 8 * q + r; (h + 7) / 8 + (h + 3) / 8 + (h + 1) / 4 + h / 2 == h
  {
    var h := 8 * q + r;
    assert (h + 7) / 8 == q + (r + 7) / 8;
    assert (h + 3) / 8 == q + (r + 3) / 8;
    assert (h + 1) / 4 == 2 * q + (r + 1) / 4;
    assert h / 2 == 4 * q + r / 2;
  }

  ghost predicate RowsBelow(order: seq<nat>, height: nat)
  {
    forall k :: 0 <= k < |order| ==> order[k] < height
  }

  /** The rows of a raster in the given order. */
  ghost function Reordered(raster: seq<Byte>, width: nat, height: nat, order: seq<nat>): (r: seq<Byte>)
    requires Offset(height, width) <= |raster| && RowsBelow(order, height)
    ensures |r| == Offset(|order|, width)
    decreases |order|
  {
    if order == [] then []
    else Reordered(raster, width, height, order[..|order| - 1]) + Row(raster, width, height, order[|order| - 1])
  }

  lemma {:induction false} ReorderedRow(raster: seq<Byte>, width: nat, height: nat, order: seq<nat>, i: nat)
    requires Offset(height, width) <= |raster| && RowsBelow(order, height) && i < |order|
    ensures Row(Reordered(raster, width, height, order), width, |order|, i) == Row(raster, width, height, order[i])
    decreases |order|
  {
    var last := |order| - 1;
    if i < last {
      ReorderedRow(raster, width, height, order[..last], i);
      OffsetMonotone(i, last, width);
    }
  }

  /** The order lists `height` rows below `height`. */
  ghost predicate ValidOrder(height: nat)
  {
    |InterlaceOrder(height)| == height && RowsBelow(InterlaceOrder(height), height)
  }

  lemma OrderIsValid(height: nat)
    ensures ValidOrder(height) && NoDuplicates(InterlaceOrder(height))
    ensures InterlaceOrder(height) == RowsOfPasses(0, height)
  {
    InterlaceOrderIsPermutation(height);
    PassesAreTheOrder(height);
    assert forall k :: 0 <= k < height ==> InterlaceOrder(height)[k] in InterlaceOrder(height);
  }

  /** Row `order[i]` of the result is row `i` of the stored data, for the first `n` rows of the order. */
  ghost predicate Placed(result: seq<Byte>, data: seq<Byte>, width: nat, height: nat, order: seq<nat>, n: nat)
    requires Offset(height, width) <= |data| == |result| && RowsBelow(order, height) && n <= |order| == height
  {
    forall i: nat :: i < n ==> Row(result, width, height, order[i]) == Row(data, width, height, i)
  }

  lemma PlaceNext(result: seq<Byte>, data: seq<Byte>, width: nat, height: nat, order: seq<nat>, n: nat)
    requires Offset(height, width) <= |data| == |result| && RowsBelow(order, height) && n < |order| == height
    requires NoDuplicates(order) && Placed(result, data, width, height, order, n)
    ensures Offset(order[n], width) + width <= |result|
    ensures Placed(Splice(result, Offset(order[n], width), Row(data, width, height, n)), data, width, height, order, n + 1)
  {
    OffsetMonotone(order[n], height, width);
    forall i: nat | i < n + 1
      ensures Row(Splice(result, Offset(order[n], width), Row(data, width, height, n)), width, height, order[i])
           == Row(data, width, height, i)
    {
      RowAfterSplice(result, width, height, order[n], Row(data, width, height, n), order[i]);
    }
  }

  lemma NextInOrder(order: seq<nat>, n: nat, row: nat, step: nat, height: nat, later: seq<nat>)
    requires n <= |order| && step > 0 && row < height
    requires order[n..] == RowsFrom(row, step, height) + later
    ensures n < |order| && order[n] == row && order[n + 1..] == RowsFrom(row + step, step, height) + later
  {
    var rest := RowsFrom(row + step, step, height);
    assert RowsFrom(row, step, height) == [row] + rest;
    assert order[n..] == [row] + (rest + later);
    assert order[n] == order[n..][0];
    assert order[n + 1..] == order[n..][1..];
  }

  /** The copy of stored row `i` stays inside the stored data and inside the result, which are equally long. */
  ghost predicate CopyStaysInside(size: nat, width: nat, order: seq<nat>, i: nat)
    requires i < |order|
  {
    Offset(i, width) + width <= size && Offset(order[i], width) + width <= size
  }

  ghost predicate CopiesStayInside(size: nat, width: nat, order: seq<nat>)
  {
    forall i: nat :: i < |order| ==> CopyStaysInside(size, width, order, i)
  }

  /**
   The row copies of the de-interlacer stay inside its vectors exactly if
   there is a byte for every pixel. The copies are not bounds checked.
   */
  lemma CopiesInsideExactly(size: nat, width: nat, height: nat)
    ensures CopiesStayInside(size, width, InterlaceOrder(height)) <==> Offset(height, width) <= size
  {
    OrderIsValid(height);
    var order := InterlaceOrder(height);
    if height > 0 && CopiesStayInside(size, width, order) {
      assert CopyStaysInside(size, width, order, height - 1);
    }
    if Offset(height, width) <= size {
      forall i: nat | i < |order|
        ensures CopyStaysInside(size, width, order, i)
      {
        OffsetMonotone(i, height, width);
        OffsetMonotone(order[i], height, width);
      }
    }
  }

  /** If the data suffice, the first `n` stored rows are in their places. */
  ghost predicate PlacedIfEnough(result: seq<Byte>, data: seq<Byte>, width: nat, height: nat, order: seq<nat>, n: nat)
    requires |data| == |result| && RowsBelow(order, height) && n <= |order| == height
  {
    Offset(height, width) <= |data| ==> Placed(result, data, width, height, order, n)
  }

  /** Copies the next `width` stored bytes to the place of `row`, or says that the copy leaves a vector. */
  method CopyRow(data: seq<Byte>, sourceIndex: nat, buffer: array<Byte>, row: nat, width: nat, height: nat,
                 ghost order: seq<nat>, ghost n: nat)
    returns (inside: bool)
    requires |data| == buffer.Length && RowsBelow(order, height) && n < |order| == height
    requires NoDuplicates(order) && order[n] == row && sourceIndex == Offset(n, width)
    requires PlacedIfEnough(buffer[..], data, width, height, order, n)
    modifies buffer
    ensures inside <==> CopyStaysInside(|data|, width, order, n)
    ensures inside ==> PlacedIfEnough(buffer[..], data, width, height, order, n + 1)
  {
    OffsetIsProduct(row, width);
    inside := sourceIndex + width <= |data| && row * width + width <= buffer.Length;
    if inside {
      ghost var before := buffer[..];
      CopyN(data, sourceIndex, buffer, row * width, width);
      if Offset(height, width) <= |data| {
        PlaceNext(before, data, width, height, order, n);
      }
    }
  }

  /** One pass: the stored rows from the `n`th on go to the rows `start`, `start + step`, and so on. */
  method CopyPass(data: seq<Byte>, sourceIndex: nat, buffer: array<Byte>, start: nat, step: nat, width: nat, height: nat,
                  ghost order: seq<nat>, ghost n: nat, ghost later: seq<nat>)
    returns (inside: bool, sourceIndex': nat, ghost n': nat)
    requires |data| == buffer.Length && RowsBelow(order, height)
    requires n <= |order| == height && NoDuplicates(order) && step > 0 && sourceIndex == Offset(n, width) <= |data|
    requires order[n..] == RowsFrom(start, step, height) + later
    requires PlacedIfEnough(buffer[..], data, width, height, order, n)
    modifies buffer
    ensures !inside ==> !CopiesStayInside(|data|, width, order)
    ensures inside ==>
              && n' <= height && order[n'..] == later && sourceIndex' == Offset(n', width) <= |data|
              && PlacedIfEnough(buffer[..], data, width, height, order, n')
  {
    inside, sourceIndex', n' := true, sourceIndex, n;
    var row := start;
    while row < height
      invariant inside && n' <= height && sourceIndex' == Offset(n', width) <= |data|
      invariant order[n'..] == RowsFrom(row, step, height) + later
      invariant PlacedIfEnough(buffer[..], data, width, height, order, n')
      decreases height - row
    {
      NextInOrder(order, n', row, step, height, later);
      inside := CopyRow(data, sourceIndex', buffer, row, width, height, order, n');
      if !inside {
        return;
      }
      sourceIndex', n' := sourceIndex' + width, n' + 1;
      row := row + step;
    }
  }

  /** `None` if a row copy leaves its vector, which is undefined behaviour. */
  method ApplyInterlace(data: seq<Byte>, width: nat, height: nat) returns (r: Option<seq<Byte>>)
    ensures r.None? <==> !CopiesStayInside(|data|, width, InterlaceOrder(height))
    ensures r.None? <==> |data| < Offset(height, width)
    ensures r.Some? ==>
              && |r.value| == |data| && ValidOrder(height)
              && Placed(r.value, data, width, height, InterlaceOrder(height), height)
  {
    OrderIsValid(height);
    CopiesInsideExactly(|data|, width, height);
    ghost var order := InterlaceOrder(height);
    var buffer := new Byte[|data|](_ => 0);
    var sourceIndex: nat := 0;
    ghost var n: nat := 0;
    for pass := 0 to 4
      invariant n <= height && sourceIndex == Offset(n, width) <= |data|
      invariant order[n..] == RowsOfPasses(pass, height)
      invariant PlacedIfEnough(buffer[..], data, width, height, order, n)
    {
      var (start, step) := Pass(pass);
      var inside: bool;
      inside, sourceIndex, n :=
        CopyPass(data, sourceIndex, buffer, start, step, width, height, order, n, RowsOfPasses(pass + 1, height));
      if !inside {
        return None;
      }
    }
    assert |order[n..]| == 0;
    r := Some(buffer[..]);
  }

  /** Where each byte of a de-interlaced image comes from. */
  lemma PlacedPixel(result: seq<Byte>, data: seq<Byte>, width: nat, height: nat, r: nat, x: nat)
    requires Offset(height, width) <= |data| == |result| && ValidOrder(height)
    requires Placed(result, data, width, height, InterlaceOrder(height), height)
    requires r < height && x < width
    ensures r * width + x < |result| && StoredPlace(r, height) * width + x < |data|
    ensures result[r * width + x] == data[StoredPlace(r, height) * width + x]
  {
    var i := StoredPlace(r, height);
    InterlaceOrderPlace(height, r);
    OffsetIsProduct(r, width);
    OffsetIsProduct(i, width);
    OffsetMonotone(r, height, width);
    OffsetMonotone(i, height, width);
    assert Row(result, width, height, r)[x] == Row(data, width, height, i)[x];
  }

  /** De-interlacing undoes the row order of GIF89a, Appendix E. */
  lemma InterlaceInverse(raster: seq<Byte>, width: nat, height: nat, result: seq<Byte>)
    requires |raster| == Offset(height, width) && ValidOrder(height)
    requires |result| == |raster|
    requires Placed(result, Reordered(raster, width, height, InterlaceOrder(height)), width, height,
                    InterlaceOrder(height), height)
    ensures result == raster
  {
    var order := InterlaceOrder(height);
    InterlaceOrderIsPermutation(height);
    forall r: nat | r < height
      ensures Row(result, width, height, r) == Row(raster, width, height, r)
    {
      assert r in order;
      var i: nat :| i < height && order[i] == r;
      ReorderedRow(raster, width, height, order, i);
    }
    RowsDetermine(result, raster, width, height);
  }

  // ----- One image

  datatype ImageError = LzwFailure(error: Dec.LzwError) | UndefinedBehaviour | WrongSize

  /** What `ReadImage` makes of the LZW data before it cuts them into lines. */
  ghost predicate FrameIs(m: Byte, width: nat, height: nat, interlaced: bool, compressed: seq<Byte>,
                          r: Result<seq<Byte>, ImageError>)
  {
    var decoded := Dec.Decode(m, compressed);
    if decoded.Failure? then r == Failure(LzwFailure(decoded.error))
    else
      var data := decoded.value;
      if interlaced && !CopiesStayInside(|data|, width, InterlaceOrder(height)) then r == Failure(UndefinedBehaviour)
      else if |data| != Offset(height, width) then r == Failure(WrongSize)
      else if interlaced then
        && r.Success? && |r.value| == |data| && ValidOrder(height)
        && Placed(r.value, data, width, height, InterlaceOrder(height), height)
      else r == Success(data)
  }

  /**
   The steps from the minimum code size to the raster. The data are
   de-interlaced before their size is checked; `UndefinedBehaviour` stands
   for a row copy that leaves its vector.
   */
  method ReadImage(stream: Stream, width: nat, height: nat, interlaceFlag: bool) returns (r: Option<Result<seq<Byte>, ImageError>>)
    requires stream.Valid()
    modifies stream
    ensures stream.Valid()
    ensures var bytes := old(stream.Ahead());
            if bytes == [] then r == None
            else
              var u := Unblock(bytes[1..]);
              && r.Some?
              && FrameIs(bytes[0], width, height, interlaceFlag, if u.None? then [] else u.value.0, r.value)
              && (u.Some? ==> stream.Ahead() == u.value.1)
  {
    var lzwMinCodeSize := stream.Read(1);
    if lzwMinCodeSize.None? {
      return None;
    }
    var compressedData := ReadCompressedImageData(stream);
    var decompressed := Dec.LZWDecompress(compressedData, lzwMinCodeSize.value[0]);
    if decompressed.Failure? {
      return Some(Failure(LzwFailure(decompressed.error)));
    }
    var data := decompressed.value;
    OffsetIsProduct(height, width);
    if interlaceFlag {
      var deinterlaced := ApplyInterlace(data, width, height);
      if deinterlaced.None? {
        return Some(Failure(UndefinedBehaviour));
      }
      data := deinterlaced.value;
    }
    if height * width != |data| {
      return Some(Failure(WrongSize));
    }
    r := Some(Success(data));
  }

  /** What is wrong with an interlaced image whose codes can be read depends on the number of bytes alone. */
  lemma InterlacedOutcome(m: Byte, width: nat, height: nat, compressed: seq<Byte>, r: Result<seq<Byte>, ImageError>)
    requires FrameIs(m, width, height, true, compressed, r) && Dec.Decode(m, compressed).Success?
    ensures r == Failure(UndefinedBehaviour) <==> |Dec.Decode(m, compressed).value| < Offset(height, width)
    ensures r == Failure(WrongSize) <==> Offset(height, width) < |Dec.Decode(m, compressed).value|
  {
    CopiesInsideExactly(|Dec.Decode(m, compressed).value|, width, height);
  }

  /**
   A file that ends inside the sub-blocks of an interlaced image with pixels:
   the data are dropped, and the first row copy leaves the empty vector.
   */
  lemma CutOffImage(m: Byte, width: nat, height: nat, bytes: seq<Byte>, r: Result<seq<Byte>, ImageError>)
    requires Dec.ValidMinimum(m) && width > 0 && height > 0 && Unblock(bytes) == None
    requires FrameIs(m, width, height, true, [], r)
    ensures Dec.Decode(m, []) == Success([]) && r == Failure(UndefinedBehaviour)
    ensures !CopyStaysInside(0, width, InterlaceOrder(height), 0)
  {
    OrderIsValid(height);
    OffsetMonotone(0, height, width);
    InterlacedOutcome(m, width, height, [], r);
  }

  /** The raster in the row order in which it is stored. */
  ghost function Stored(raster: seq<Byte>, width: nat, height: nat, interlaced: bool): seq<Byte>
    requires |raster| == Offset(height, width) && ValidOrder(height)
  {
    if interlaced then Reordered(raster, width, height, InterlaceOrder(height)) else raster
  }

  /**
   A whole image, from raster to file and back: whatever the minimum code
   size, the clear codes, the division into sub-blocks and the row order,
   the loader's steps return the raster and leave the stream after the image.
   */
  lemma ImageRoundTrip(m: Byte, raster: seq<Byte>, width: nat, height: nat, interlaced: bool, clears: set<nat>,
                       blocks: seq<seq<Byte>>, tail: seq<Byte>, r: Result<seq<Byte>, ImageError>)
    requires Dec.ValidMinimum(m) && Enc.Indices(m, raster)
    requires |raster| == Offset(height, width) && ValidOrder(height)
    requires forall b :: b in blocks ==> 0 < |b| < 256
    requires Flatten(blocks) == Pack(Enc.BitsOfCodes(Enc.Encode(m, Stored(raster, width, height, interlaced), clears)))
    requires var u := Unblock(Blocks(blocks) + tail);
             FrameIs(m, width, height, interlaced, if u.None? then [] else u.value.0, r)
    ensures r == Success(raster)
    ensures Unblock(Blocks(blocks) + tail) == Some((Flatten(blocks), tail))
  {
    UnblockBlocks(blocks, tail);
    var stored := Stored(raster, width, height, interlaced);
    if interlaced {
      ReorderedIndices(m, raster, width, height, InterlaceOrder(height));
    }
    CopiesInsideExactly(|stored|, width, height);
    Enc.DecodeEncode(m, stored, clears, []);
    assert Flatten(blocks) + [] == Flatten(blocks);
    if interlaced {
      InterlaceInverse(raster, width, height, r.value);
    }
  }

  lemma {:induction false} ReorderedIndices(m: nat, raster: seq<Byte>, width: nat, height: nat, order: seq<nat>)
    requires Offset(height, width) <= |raster| && RowsBelow(order, height) && Enc.Indices(m, raster)
    ensures Enc.Indices(m, Reordered(raster, width, height, order))
    decreases |order|
  {
    if order != [] {
      ReorderedIndices(m, raster, width, height, order[..|order| - 1]);
      OffsetMonotone(order[|order| - 1], height, width);
    }
  }
}
