/** The walk over the chunks of a PNG file. */
module PngChunks {
  import opened Wrappers
  import opened Bits
  import opened Streams
  import opened PngCrc

  const PLTE: seq<Byte> := [0x50, 0x4C, 0x54, 0x45]
  const IDAT: seq<Byte> := [0x49, 0x44, 0x41, 0x54]
  const CRC_BUF_SIZE: nat := 4096

  datatype Chunk = Chunk(size: nat, kind: seq<Byte>, crc: nat, dataPosition: nat) {
    /** What the loader takes for a chunk that was read. */
    predicate Usable() { crc != 0 && size > 0 }

    function Next(): nat { dataPosition + size + 4 }
  }

  /** What stands for a chunk that cannot be read. */
  const NO_CHUNK := Chunk(0, [0, 0, 0, 0], 0, 0)

  // ----- Numbers in files

  type Word = n: nat | n < 0x1_0000_0000

  function BigEndian(b: seq<Byte>): (v: nat)
    requires |b| == 4
  {
    (b[0] as int) * 0x100_0000 + (b[1] as int) * 0x1_0000 + (b[2] as int) * 0x100 + b[3] as int
  }

  function BigEndianBytes(v: Word): (b: seq<Byte>)
    ensures |b| == 4
  {
    [v / 0x100_0000, v / 0x1_0000 % 0x100, v / 0x100 % 0x100, v % 0x100]
  }

  lemma BigEndianRoundTrip(v: Word)
    ensures BigEndian(BigEndianBytes(v)) == v
  {
    var h1 := v / 0x100;
    var h2 := h1 / 0x100;
    assert v / 0x1_0000 == h2 && v / 0x100_0000 == h2 / 0x100;
  }

  /** The number at position `p`; a number that is cut off reads as zero. */
  function NumberAt(contents: seq<Byte>, p: nat): nat
  {
    if p + 4 <= |contents| then BigEndian(contents[p..p + 4]) else 0
  }

  method ReadPNGUint32(stream: Stream) returns (v: nat)
    requires stream.Valid()
    modifies stream
    ensures stream.Valid() && v == NumberAt(stream.contents, old(stream.position))
    ensures stream.position == if old(stream.position) + 4 <= |stream.contents| then old(stream.position) + 4
                               else old(stream.position)
  {
    var bytes := stream.Read(4);
    v := match bytes { case Some(b) => BigEndian(b) case None => BigEndian([0, 0, 0, 0]) };
    assert old(stream.position) + 4 <= |stream.contents| ==>
        stream.contents[old(stream.position)..][..4] == stream.contents[old(stream.position)..old(stream.position) + 4];
  }

  // ----- One chunk

  /** Makes a check value of type and data. That of the format is `CheckValue`. */
  type Check = seq<Byte> -> Word

  function CheckValue(bytes: seq<Byte>): Word
  {
    Complement(Feed(ALL_ONES, bytes))
  }

  /** The register after the type and a part of the data. */
  ghost function Fed(kind: seq<Byte>, contents: seq<Byte>, start: nat, end: nat): bv32
    requires start <= end <= |contents|
  {
    Feed(ALL_ONES, kind + contents[start..end])
  }

  /** The chunk at position `p`. */
  function ChunkAt(contents: seq<Byte>, p: nat, check: Check): (c: Chunk)
    ensures c.Usable() ==> c.dataPosition == p + 8 && c.Next() <= |contents|
  {
    if p + 8 > |contents| then NO_CHUNK
    else
      var size, data := NumberAt(contents, p), p + 8;
      if data + size > |contents| then NO_CHUNK
      else
        var crc := NumberAt(contents, data + size);
        var kind := contents[p + 4..data];
        if check(kind + contents[data..data + size]) != crc then NO_CHUNK
        else Chunk(size, kind, crc, data)
  }

  /** The check value of type and data, which are read in blocks. `None` if the data are cut off. */
  method ReadCrc(stream: Stream, table: array<bv32>, kind: seq<Byte>, size: nat) returns (r: Option<Word>)
    requires stream.Valid() && IsTable(table)
    modifies stream
    ensures stream.Valid()
    ensures if old(stream.position) + size <= |stream.contents|
            then r == Some(CheckValue(kind + stream.contents[old(stream.position)..old(stream.position) + size]))
                 && stream.position == old(stream.position) + size
            else r == None
  {
    var crc := UpdateCrc(table, ALL_ONES, kind);
    var remaining: nat := size;
    ghost var start := stream.position;
    assert kind + stream.contents[start..start] == kind;
    while remaining > 0
      invariant remaining <= size && stream.Valid() && stream.position == start + (size - remaining)
      invariant crc == Fed(kind, stream.contents, start, stream.position)
    {
      var toRead := if remaining < CRC_BUF_SIZE then remaining else CRC_BUF_SIZE;
      var next := ReadBlock(stream, table, kind, start, crc, toRead);
      if next.None? {
        return None;
      }
      crc := next.value;
      remaining := remaining - toRead;
    }
    FedIsChecked(kind, stream.contents, start, stream.position);
    r := Some(Complement(crc));
  }

  lemma FedIsChecked(kind: seq<Byte>, contents: seq<Byte>, start: nat, end: nat)
    requires start <= end <= |contents|
    ensures Complement(Fed(kind, contents, start, end)) == CheckValue(kind + contents[start..end])
  {
  }

  /** One block of at most 4096 bytes. */
  method ReadBlock(stream: Stream, table: array<bv32>, ghost kind: seq<Byte>, ghost start: nat, crc: bv32, toRead: nat)
    returns (r: Option<bv32>)
    requires stream.Valid() && IsTable(table) && start <= stream.position && toRead > 0
    requires crc == Fed(kind, stream.contents, start, stream.position)
    modifies stream
    ensures stream.Valid()
    ensures if old(stream.position) + toRead <= |stream.contents|
            then stream.position == old(stream.position) + toRead
                 && r == Some(Fed(kind, stream.contents, start, stream.position))
            else r == None
  {
    ghost var p := stream.position;
    var block := stream.Read(toRead);
    if block.None? {
      return None;
    }
    NextBlock(kind, stream.contents, start, p, toRead);
    var next := UpdateCrc(table, crc, block.value);
    r := Some(next);
  }

  lemma NextBlock(kind: seq<Byte>, contents: seq<Byte>, start: nat, p: nat, n: nat)
    requires start <= p && p + n <= |contents|
    ensures contents[p..][..n] == contents[p..p + n]
    ensures Feed(Fed(kind, contents, start, p), contents[p..p + n]) == Fed(kind, contents, start, p + n)
  {
    FeedConcat(ALL_ONES, kind + contents[start..p], contents[p..p + n]);
    assert kind + contents[start..p] + contents[p..p + n] == kind + contents[start..p + n];
  }

  /** The length and the type; no type if either is cut off. */
  method ReadHeader(stream: Stream) returns (size: nat, kind: Option<seq<Byte>>)
    requires stream.Valid()
    modifies stream
    ensures stream.Valid() && (kind.Some? <==> old(stream.position) + 8 <= |stream.contents|)
    ensures kind.Some? ==>
              && stream.position == old(stream.position) + 8 && size == NumberAt(stream.contents, old(stream.position))
              && kind.value == stream.contents[old(stream.position) + 4..old(stream.position) + 8]
  {
    ghost var p := stream.position;
    size := ReadPNGUint32(stream);
    kind := stream.Read(4);
    if kind.Some? {
      assert stream.contents[p + 4..][..4] == stream.contents[p + 4..p + 8];
    }
  }

  lemma CutOff(contents: seq<Byte>, p: nat, size: nat)
    requires p + 8 > |contents| || (size == NumberAt(contents, p) && p + 8 + size > |contents|)
    ensures ChunkAt(contents, p, CheckValue) == NO_CHUNK
  {
  }

  lemma ChunkOfReads(contents: seq<Byte>, p: nat, size: nat, kind: seq<Byte>, computed: Word, crc: nat)
    requires p + 8 + size <= |contents| && size == NumberAt(contents, p) && kind == contents[p + 4..p + 8]
    requires computed == CheckValue(kind + contents[p + 8..p + 8 + size]) && crc == NumberAt(contents, p + 8 + size)
    ensures ChunkAt(contents, p, CheckValue) == if computed == crc then Chunk(size, kind, crc, p + 8) else NO_CHUNK
  {
  }

  /** Reads a chunk, checks it, and goes back to its data. */
  method ReadChunk(stream: Stream, table: array<bv32>) returns (chunk: Chunk)
    requires stream.Valid() && IsTable(table)
    modifies stream
    ensures stream.Valid() && chunk == ChunkAt(stream.contents, old(stream.position), CheckValue)
    ensures chunk.Usable() ==> stream.position == chunk.dataPosition
  {
    var size, kind := ReadHeader(stream);
    if kind.None? {
      CutOff(stream.contents, old(stream.position), 0);
      return NO_CHUNK;
    }
    var dataPosition := stream.position;
    var computed := ReadCrc(stream, table, kind.value, size);
    if computed.None? {
      CutOff(stream.contents, old(stream.position), size);
      return NO_CHUNK;
    }
    var crc := ReadPNGUint32(stream);
    ChunkOfReads(stream.contents, old(stream.position), size, kind.value, computed.value, crc);
    if computed.value != crc {
      return NO_CHUNK;
    }
    var sought := stream.SeekTo(dataPosition);
    chunk := Chunk(size, kind.value, crc, dataPosition);
  }

  // ----- The walk

  /** What the chunks have brought so far: the last palette, and the compressed data in order. */
  datatype Loaded = Loaded(palette: Option<seq<Byte>>, compressed: seq<seq<Byte>>)

  /** Which compressed data the zlib library accepts. */
  type Inflates = seq<seq<Byte>> -> bool

  /** What a chunk adds. */
  function Taken(l: Loaded, kind: seq<Byte>, data: seq<Byte>, inflates: Inflates): Option<Loaded>
  {
    if kind == PLTE then
      if |data| % 3 != 0 || |data| > 256 * 3 then None else Some(l.(palette := Some(data)))
    else if kind == IDAT then
      if inflates(l.compressed + [data]) then Some(l.(compressed := l.compressed + [data])) else None
    else Some(l)
  }

  /** The chunks that a walk saw, what they brought, and whether it came to a good end. */
  datatype Walk = Walk(visited: seq<Chunk>, loaded: Loaded, ok: bool)

  function Onward(visited: seq<Chunk>, rest: Walk): Walk { rest.(visited := visited + rest.visited) }

  lemma OnwardOnward(a: seq<Chunk>, b: seq<Chunk>, rest: Walk)
    ensures Onward(a, Onward(b, rest)) == Onward(a + b, rest)
  {
    assert a + (b + rest.visited) == a + b + rest.visited;
  }

  function Data(contents: seq<Byte>, c: Chunk): seq<Byte>
    requires c.Usable() && c.Next() <= |contents|
  {
    contents[c.dataPosition..c.dataPosition + c.size]
  }

  /** The walk that begins with a chunk and its data, and goes on with `rest` if the chunk is taken. */
  function AfterChunk(c: Chunk, data: seq<Byte>, l: Loaded, inflates: Inflates, rest: Walk): Walk
  {
    if !c.Usable() then Walk([], l, c.kind == IEND)
    else
      match Taken(l, c.kind, data, inflates)
      case None => Walk([c], l, false)
      case Some(_) => Onward([c], rest)
  }

  /** The walk from position `p` on. */
  function WalkFrom(contents: seq<Byte>, p: nat, l: Loaded, check: Check, inflates: Inflates): Walk
    decreases |contents| - p
  {
    if p >= |contents| then Walk([], l, true)
    else
      var c := ChunkAt(contents, p, check);
      if !c.Usable() then Walk([], l, c.kind == IEND)
      else
        match Taken(l, c.kind, Data(contents, c), inflates)
        case None => Walk([c], l, false)
        case Some(next) =>
          Onward([c], WalkFrom(contents, c.Next(), next, check, inflates))
  }

  /** The colours of a palette, read byte by byte. */
  method ProcessPLTEData(stream: Stream, size: nat) returns (r: Option<seq<Byte>>)
    requires stream.Valid() && stream.position + size <= |stream.contents|
    modifies stream
    ensures stream.Valid()
    ensures r == if size % 3 != 0 || size > 256 * 3 then None
                 else Some(stream.contents[old(stream.position)..old(stream.position) + size])
  {
    if size % 3 != 0 || size > 256 * 3 {
      return None;
    }
    var colours: seq<Byte> := [];
    for i := 0 to size
      invariant stream.Valid() && stream.position == old(stream.position) + i
      invariant colours == stream.contents[old(stream.position)..old(stream.position) + i]
    {
      var channel := stream.Read(1);
      colours := colours + channel.value;
    }
    r := Some(colours);
  }

  /** Hands a chunk to its reader, which may leave the stream anywhere. */
  method Process(stream: Stream, chunk: Chunk, l: Loaded, inflates: Inflates) returns (r: Option<Loaded>)
    requires stream.Valid() && chunk.Usable() && chunk.Next() <= |stream.contents| && stream.position == chunk.dataPosition
    modifies stream
    ensures stream.Valid() && r == Taken(l, chunk.kind, Data(stream.contents, chunk), inflates)
  {
    r := Some(l);
    if chunk.kind == PLTE {
      var palette := ProcessPLTEData(stream, chunk.size);
      r := match palette { case None => None case Some(p) => Some(l.(palette := Some(p))) };
    } else if chunk.kind == IDAT {
      assert stream.contents[stream.position..][..chunk.size] == Data(stream.contents, chunk);
      var data := stream.Read(chunk.size);
      var compressed := l.compressed + [data.value];
      r := if inflates(compressed) then Some(l.(compressed := compressed)) else None;
    }
  }

  /** The loop over the chunks. */
  method ReadChunks(stream: Stream, table: array<bv32>, start: Loaded, inflates: Inflates) returns (w: Walk)
    requires stream.Valid() && IsTable(table)
    modifies stream
    ensures w == WalkFrom(stream.contents, old(stream.position), start, CheckValue, inflates)
  {
    var visited: seq<Chunk> := [];
    var l := start;
    ghost var contents := stream.contents;
    ghost var all := WalkFrom(contents, stream.position, start, CheckValue, inflates);
    var end := stream.AtEnd();
    while !end
      invariant stream.Valid() && end == (stream.position >= |contents|)
      invariant all == Onward(visited, WalkFrom(contents, stream.position, l, CheckValue, inflates))
      decreases |contents| - stream.position, !end
    {
      ghost var p := stream.position;
      var chunk := ReadChunk(stream, table);
      if !chunk.Usable() {
        return Walk(visited, l, chunk.kind == IEND);
      }
      var next := Process(stream, chunk, l, inflates);
      OnwardOnward(visited, [chunk], WalkFrom(contents, chunk.Next(), l, CheckValue, inflates));
      visited := visited + [chunk];
      if next.None? {
        return Walk(visited, l, false);
      }
      OnwardOnward(visited[..|visited| - 1], [chunk], WalkFrom(contents, chunk.Next(), next.value, CheckValue, inflates));
      l := next.value;
      var sought := stream.SeekTo(chunk.Next());
      end := stream.AtEnd();
    }
    w := Walk(visited, l, true);
  }

  // ----- What a walk has loaded

  /** The chunks have data, which lie in the file. */
  ghost predicate Inside(contents: seq<Byte>, cs: seq<Chunk>)
  {
    forall k :: 0 <= k < |cs| ==> cs[k].Usable() && cs[k].Next() <= |contents|
  }

  /** The data of a chunk if it is of the kind. */
  ghost function DataIf(contents: seq<Byte>, c: Chunk, kind: seq<Byte>): seq<seq<Byte>>
    requires c.Usable() && c.Next() <= |contents|
  {
    if c.kind == kind then [contents[c.dataPosition..c.dataPosition + c.size]] else []
  }

  /** The data of the chunks of a kind, in the order of the file. */
  ghost function DataOf(contents: seq<Byte>, cs: seq<Chunk>, kind: seq<Byte>): seq<seq<Byte>>
    requires Inside(contents, cs)
  {
    if cs == [] then [] else DataIf(contents, cs[0], kind) + DataOf(contents, cs[1..], kind)
  }

  /** A palette of at most 256 whole colours; data that zlib accepts behind those before; any chunk of another kind. */
  ghost predicate Acceptable(contents: seq<Byte>, cs: seq<Chunk>, k: nat, before: seq<seq<Byte>>, inflates: Inflates)
    requires Inside(contents, cs) && k < |cs|
  {
    && (cs[k].kind == PLTE ==> cs[k].size % 3 == 0 && cs[k].size <= 768)
    && (cs[k].kind == IDAT ==> inflates(before + DataOf(contents, cs[..k + 1], IDAT)))
  }

  /** All chunks are acceptable, but for one that may be refused, which is the last. */
  ghost predicate Accepted(contents: seq<Byte>, cs: seq<Chunk>, n: nat, before: seq<seq<Byte>>, inflates: Inflates)
    requires Inside(contents, cs)
  {
    && n <= |cs| <= n + 1
    && forall k :: 0 <= k < |cs| ==> (Acceptable(contents, cs, k, before, inflates) <==> k < n)
  }

  /** The palette is that of the last PLTE chunk, or the one before the walk if there is none. */
  ghost predicate IsLastPalette(contents: seq<Byte>, cs: seq<Chunk>, before: Option<seq<Byte>>, palette: Option<seq<Byte>>)
    requires Inside(contents, cs)
  {
    || (palette == before && forall k :: 0 <= k < |cs| ==> cs[k].kind != PLTE)
    || exists k :: 0 <= k < |cs| && cs[k].kind == PLTE && (forall j :: k < j < |cs| ==> cs[j].kind != PLTE)
                   && palette == Some(contents[cs[k].dataPosition..cs[k].dataPosition + cs[k].size])
  }

  /** The chunks follow each other in the file, the first one at `p`. */
  ghost predicate Follows(contents: seq<Byte>, p: nat, cs: seq<Chunk>, check: Check)
    decreases |cs|
  {
    cs != [] ==> p < |contents| && cs[0] == ChunkAt(contents, p, check) && Follows(contents, cs[0].Next(), cs[1..], check)
  }

  /** The walk ends well at the end of the file or at an IEND chunk without data or check value, and else with an error. */
  ghost predicate EndsRightly(contents: seq<Byte>, p: nat, w: Walk, n: nat, check: Check)
  {
    if n < |w.visited| then !w.ok
    else
      var end := if w.visited == [] then p else w.visited[|w.visited| - 1].Next();
      if end >= |contents| then w.ok
      else
        var c := ChunkAt(contents, end, check);
        !c.Usable() && w.ok == (c.kind == IEND)
  }

  /** The first `n` chunks that a walk saw have been loaded, in the order of the file. */
  ghost predicate HasLoaded(contents: seq<Byte>, w: Walk, n: nat, l: Loaded)
    requires Inside(contents, w.visited) && n <= |w.visited|
  {
    && w.loaded.compressed == l.compressed + DataOf(contents, w.visited[..n], IDAT)
    && IsLastPalette(contents, w.visited[..n], l.palette, w.loaded.palette)
  }

  ghost predicate IsWalk(contents: seq<Byte>, p: nat, l: Loaded, check: Check, inflates: Inflates, w: Walk, n: nat)
  {
    && Inside(contents, w.visited)
    && Follows(contents, p, w.visited, check)
    && Accepted(contents, w.visited, n, l.compressed, inflates)
    && HasLoaded(contents, w, n, l)
    && EndsRightly(contents, p, w, n, check)
  }

  /**
   The walk sees the usable chunks that follow each other in the file, up to the
   first that is refused. The compressed data of those before are loaded in
   order, with the last palette. A refused chunk is a palette that has more than
   256 colours or a part of one, or data that zlib does not accept behind those
   before.
   */
  lemma {:induction false} WalkLoads(contents: seq<Byte>, p: nat, l: Loaded, check: Check, inflates: Inflates)
    returns (n: nat)
    ensures IsWalk(contents, p, l, check, inflates, WalkFrom(contents, p, l, check, inflates), n)
    decreases |contents| - p
  {
    n := 0;
    if p >= |contents| || !ChunkAt(contents, p, check).Usable() {
      SeesNothing(contents, p, l, check, inflates, WalkFrom(contents, p, l, check, inflates).ok);
    } else {
      var c := ChunkAt(contents, p, check);
      var next := Taken(l, c.kind, Data(contents, c), inflates);
      if next.None? {
        LoadsNothing(contents, p, l, check, inflates, c);
      } else {
        var m := WalkLoads(contents, c.Next(), next.value, check, inflates);
        var rest := WalkFrom(contents, c.Next(), next.value, check, inflates);
        LoadsOnward(contents, p, l, check, inflates, c, next.value, rest, m);
        n := m + 1;
      }
    }
  }

  lemma SeesNothing(contents: seq<Byte>, p: nat, l: Loaded, check: Check, inflates: Inflates, ok: bool)
    requires EndsRightly(contents, p, Walk([], l, ok), 0, check)
    ensures IsWalk(contents, p, l, check, inflates, Walk([], l, ok), 0)
  {
    assert l.compressed + [] == l.compressed;
  }

  lemma LoadsNothing(contents: seq<Byte>, p: nat, l: Loaded, check: Check, inflates: Inflates, c: Chunk)
    requires p < |contents| && c == ChunkAt(contents, p, check) && c.Usable()
    requires Taken(l, c.kind, Data(contents, c), inflates) == None
    ensures IsWalk(contents, p, l, check, inflates, Walk([c], l, false), 0)
  {
    var w := Walk([c], l, false);
    assert w.visited[..1] == [c] && w.visited[..0] == [];
    assert l.compressed + [] == l.compressed;
    DataOfOne(contents, c, IDAT);
  }

  lemma DataOfOne(contents: seq<Byte>, c: Chunk, kind: seq<Byte>)
    requires c.Usable() && c.Next() <= |contents| && Inside(contents, [c])
    ensures DataOf(contents, [c], kind) == DataIf(contents, c, kind)
  {
  }

  lemma DataOfFirst(contents: seq<Byte>, c: Chunk, cs: seq<Chunk>, kind: seq<Byte>)
    requires c.Usable() && c.Next() <= |contents| && Inside(contents, [c] + cs) && Inside(contents, cs)
    ensures DataOf(contents, [c] + cs, kind)
         == DataIf(contents, c, kind) + DataOf(contents, cs, kind)
  {
    assert ([c] + cs)[1..] == cs;
  }

  lemma LoadsOnward(contents: seq<Byte>, p: nat, l: Loaded, check: Check, inflates: Inflates, c: Chunk, next: Loaded,
                    rest: Walk, m: nat)
    requires p < |contents| && c == ChunkAt(contents, p, check) && c.Usable()
    requires Taken(l, c.kind, Data(contents, c), inflates) == Some(next)
    requires IsWalk(contents, c.Next(), next, check, inflates, rest, m)
    ensures IsWalk(contents, p, l, check, inflates, Onward([c], rest), m + 1)
  {
    InsideOnward(contents, c, rest.visited);
    assert ([c] + rest.visited)[1..] == rest.visited;
    AcceptedOnward(contents, l, inflates, c, next, rest.visited, m);
    LoadedOnward(contents, l, inflates, c, next, rest, m);
    EndOnward(contents, p, check, c, rest, m);
  }

  lemma LoadedOnward(contents: seq<Byte>, l: Loaded, inflates: Inflates, c: Chunk, next: Loaded, rest: Walk, m: nat)
    requires c.Usable() && c.Next() <= |contents| && Inside(contents, [c] + rest.visited) && Inside(contents, rest.visited)
    requires Taken(l, c.kind, Data(contents, c), inflates) == Some(next)
    requires m <= |rest.visited| && HasLoaded(contents, rest, m, next)
    ensures HasLoaded(contents, Onward([c], rest), m + 1, l)
  {
    DataOnward(contents, l, inflates, c, next, rest.visited, m);
    PaletteOnward(contents, l, inflates, c, next, rest.visited[..m], rest.loaded.palette);
    assert ([c] + rest.visited)[..m + 1] == [c] + rest.visited[..m];
  }

  lemma EndOnward(contents: seq<Byte>, p: nat, check: Check, c: Chunk, rest: Walk, m: nat)
    requires EndsRightly(contents, c.Next(), rest, m, check)
    ensures EndsRightly(contents, p, Onward([c], rest), m + 1, check)
  {
    var all := [c] + rest.visited;
    assert all[|all| - 1] == if rest.visited == [] then c else rest.visited[|rest.visited| - 1];
  }

  lemma InsideOnward(contents: seq<Byte>, c: Chunk, cs: seq<Chunk>)
    requires c.Usable() && c.Next() <= |contents| && Inside(contents, cs)
    ensures Inside(contents, [c] + cs)
  {
  }

  lemma Regrouped(a: seq<seq<Byte>>, b: seq<seq<Byte>>, c: seq<seq<Byte>>)
    ensures (a + b) + c == a + (b + c)
  {
  }

  /** What has been loaded grows by the data of the first chunk. */
  lemma DataOnward(contents: seq<Byte>, l: Loaded, inflates: Inflates, c: Chunk, next: Loaded, cs: seq<Chunk>, k: nat)
    requires c.Usable() && c.Next() <= |contents| && Inside(contents, [c] + cs) && Inside(contents, cs) && k <= |cs|
    requires Taken(l, c.kind, Data(contents, c), inflates) == Some(next)
    ensures l.compressed + DataOf(contents, ([c] + cs)[..k + 1], IDAT)
         == next.compressed + DataOf(contents, cs[..k], IDAT)
  {
    assert ([c] + cs)[..k + 1] == [c] + cs[..k];
    DataOfFirst(contents, c, cs[..k], IDAT);
    assert next.compressed == l.compressed + DataIf(contents, c, IDAT);
    Regrouped(l.compressed, DataIf(contents, c, IDAT), DataOf(contents, cs[..k], IDAT));
  }

  lemma AcceptedOnward(contents: seq<Byte>, l: Loaded, inflates: Inflates, c: Chunk, next: Loaded, cs: seq<Chunk>, m: nat)
    requires c.Usable() && c.Next() <= |contents| && Inside(contents, [c] + cs) && Inside(contents, cs)
    requires Taken(l, c.kind, Data(contents, c), inflates) == Some(next)
    requires Accepted(contents, cs, m, next.compressed, inflates)
    ensures Accepted(contents, [c] + cs, m + 1, l.compressed, inflates)
  {
    var all := [c] + cs;
    forall k | 0 <= k < |all|
      ensures Acceptable(contents, all, k, l.compressed, inflates) <==> k < m + 1
    {
      DataOnward(contents, l, inflates, c, next, cs, k);
      if k == 0 {
        DataOfOne(contents, c, IDAT);
        assert all[..1] == [c];
      } else {
        assert all[k] == cs[k - 1];
        assert Acceptable(contents, cs, k - 1, next.compressed, inflates) <==> k - 1 < m;
      }
    }
  }

  lemma PaletteOnward(contents: seq<Byte>, l: Loaded, inflates: Inflates, c: Chunk, next: Loaded, cs: seq<Chunk>,
                      palette: Option<seq<Byte>>)
    requires c.Usable() && c.Next() <= |contents| && Inside(contents, [c] + cs) && Inside(contents, cs)
    requires Taken(l, c.kind, Data(contents, c), inflates) == Some(next)
    requires IsLastPalette(contents, cs, next.palette, palette)
    ensures IsLastPalette(contents, [c] + cs, l.palette, palette)
  {
    var all := [c] + cs;
    if k :| 0 <= k < |cs| && cs[k].kind == PLTE && (forall j :: k < j < |cs| ==> cs[j].kind != PLTE)
            && palette == Some(contents[cs[k].dataPosition..cs[k].dataPosition + cs[k].size])
    {
      assert all[k + 1] == cs[k];
    } else if c.kind == PLTE {
      assert all[0] == c;
    }
  }

  /** The number of the format, whose first byte is the highest. */
  lemma BigEndianOrder()
    ensures BigEndian([0x12, 0x34, 0x56, 0x78]) == 0x1234_5678
    ensures BigEndianBytes(0x1234_5678) == [0x12, 0x34, 0x56, 0x78]
  {
  }

  // ----- Files written by an encoder

  datatype Raw = Raw(kind: seq<Byte>, data: seq<Byte>) {
    predicate Writable() { |kind| == 4 && |data| < 0x1_0000_0000 }

    /** A chunk that has data, and whose check value is not zero. */
    predicate Readable(check: Check) { data != [] && check(kind + data) != 0 }
  }

  /** Section 3.2 of RFC 2083: length, type, data, check value. */
  function Written(r: Raw, check: Check): (b: seq<Byte>)
    requires r.Writable()
    ensures |b| == 12 + |r.data|
  {
    BigEndianBytes(|r.data|) + r.kind + r.data + BigEndianBytes(check(r.kind + r.data))
  }

  /** The twelve bytes with which every PNG file ends. */
  lemma EndWritten()
    ensures Written(Raw(IEND, []), CheckValue) == [0, 0, 0, 0, 0x49, 0x45, 0x4E, 0x44, 0xAE, 0x42, 0x60, 0x82]
  {
    EndCheckValue();
    EndInParts(CheckValue);
  }

  lemma EndInParts(check: Check)
    requires check(IEND) == 0xAE42_6082
    ensures Written(Raw(IEND, []), check) == [0, 0, 0, 0, 0x49, 0x45, 0x4E, 0x44, 0xAE, 0x42, 0x60, 0x82]
  {
    assert IEND + [] == IEND;
    EndBytes(check(IEND));
  }

  lemma EndBytes(v: Word)
    requires v == 0xAE42_6082
    ensures BigEndianBytes(v) == [0xAE, 0x42, 0x60, 0x82] && BigEndianBytes(0) == [0, 0, 0, 0]
  {
  }

  function AllWritten(rs: seq<Raw>, check: Check): seq<Byte>
    requires forall r :: r in rs ==> r.Writable()
  {
    if rs == [] then [] else Written(rs[0], check) + AllWritten(rs[1..], check)
  }

  /** A written chunk is read back, wherever it is in a file. */
  lemma ReadWritten(contents: seq<Byte>, p: nat, r: Raw, after: seq<Byte>, check: Check)
    requires r.Writable() && p <= |contents| && contents[p..] == Written(r, check) + after
    ensures IsAt(contents, p, r, check)
  {
    BigEndianRoundTrip(|r.data|);
    BigEndianRoundTrip(check(r.kind + r.data));
    WrittenParts(r, after, check);
    PartBehind(contents, p, 0, 4);
    PartBehind(contents, p, 4, 8);
    PartBehind(contents, p, 8, 8 + |r.data|);
    PartBehind(contents, p, 8 + |r.data|, 12 + |r.data|);
    ChunkOfParts(contents, p, r, check);
  }

  lemma PartBehind(contents: seq<Byte>, p: nat, from: nat, to: nat)
    requires p <= |contents| && from <= to <= |contents[p..]|
    ensures contents[p + from..p + to] == contents[p..][from..to]
  {
  }

  lemma ChunkOfParts(contents: seq<Byte>, p: nat, r: Raw, check: Check)
    requires r.Writable() && p + 12 + |r.data| <= |contents|
    requires BigEndian(contents[p..p + 4]) == |r.data| && contents[p + 4..p + 8] == r.kind
    requires contents[p + 8..p + 8 + |r.data|] == r.data
    requires BigEndian(contents[p + 8 + |r.data|..p + 12 + |r.data|]) == check(r.kind + r.data)
    ensures ChunkAt(contents, p, check) == ChunkOf(r, p, check)
  {
  }

  lemma WrittenParts(r: Raw, after: seq<Byte>, check: Check)
    requires r.Writable()
    ensures var w := Written(r, check) + after;
      && w[..4] == BigEndianBytes(|r.data|) && w[4..8] == r.kind && w[8..8 + |r.data|] == r.data
      && w[8 + |r.data|..12 + |r.data|] == BigEndianBytes(check(r.kind + r.data))
  {
  }

  /** A written chunk as the walk sees it. */
  function ChunkOf(r: Raw, p: nat, check: Check): Chunk
  {
    Chunk(|r.data|, r.kind, check(r.kind + r.data), p + 8)
  }

  /** What the walk should see of a list of chunks that IEND follows. */
  function Seen(rs: seq<Raw>, p: nat, l: Loaded, check: Check, inflates: Inflates): Walk
  {
    if rs == [] then Walk([], l, true)
    else if !rs[0].Readable(check) then Walk([], l, rs[0].kind == IEND)
    else
      match Taken(l, rs[0].kind, rs[0].data, inflates)
      case None => Walk([ChunkOf(rs[0], p, check)], l, false)
      case Some(next) => Onward([ChunkOf(rs[0], p, check)], Seen(rs[1..], p + 12 + |rs[0].data|, next, check, inflates))
  }

  /**
   The walk over a written list sees just that list, in order and each chunk at
   its data, up to the first chunk that is refused, has no data, or has a check
   value of zero; whatever follows IEND is not looked at.
   */
  lemma {:induction false} WalkWritten(contents: seq<Byte>, p: nat, rs: seq<Raw>, after: seq<Byte>, l: Loaded, check: Check,
                                       inflates: Inflates)
    requires FileFrom(contents, p, rs, after, check)
    ensures WalkFrom(contents, p, l, check, inflates) == Seen(rs, p, l, check, inflates)
    decreases |rs|
  {
    if rs == [] {
      EndAt(contents, p, after, check);
      WalkOnce(contents, p, Raw(IEND, []), l, check, inflates, Walk([], l, true));
    } else {
      FirstAt(contents, p, rs, after, check);
      match Next(rs[0], l, check, inflates) {
        case None => WalkStops(contents, p, rs, l, check, inflates);
        case Some(next) =>
          var p' := p + 12 + |rs[0].data|;
          WalkWritten(contents, p', rs[1..], after, next, check, inflates);
          WalkGoesOn(contents, p, rs, l, check, inflates, p', rs[1..], next);
      }
    }
  }

  /** From `p` on there are the written chunks, then IEND, then anything. */
  ghost predicate FileFrom(contents: seq<Byte>, p: nat, rs: seq<Raw>, after: seq<Byte>, check: Check)
  {
    && (forall r :: r in rs ==> r.Writable())
    && p <= |contents| && contents[p..] == AllWritten(rs, check) + (Written(Raw(IEND, []), check) + after)
  }

  lemma EndAt(contents: seq<Byte>, p: nat, after: seq<Byte>, check: Check)
    requires FileFrom(contents, p, [], after, check)
    ensures IsAt(contents, p, Raw(IEND, []), check)
  {
    assert contents[p..] == Written(Raw(IEND, []), check) + after;
    ReadWritten(contents, p, Raw(IEND, []), after, check);
  }

  lemma FirstAt(contents: seq<Byte>, p: nat, rs: seq<Raw>, after: seq<Byte>, check: Check)
    requires rs != [] && FileFrom(contents, p, rs, after, check)
    ensures IsAt(contents, p, rs[0], check) && FileFrom(contents, p + 12 + |rs[0].data|, rs[1..], after, check)
  {
    var end := Written(Raw(IEND, []), check) + after;
    var behind := AllWritten(rs[1..], check) + end;
    Reassociated(Written(rs[0], check), AllWritten(rs[1..], check), end);
    Behind(contents, p, Written(rs[0], check), behind);
    ReadWritten(contents, p, rs[0], behind, check);
  }

  /** What has been loaded when the walk goes on behind a chunk. */
  function Next(r: Raw, l: Loaded, check: Check, inflates: Inflates): Option<Loaded>
  {
    if r.Readable(check) then Taken(l, r.kind, r.data, inflates) else None
  }

  /** The written chunk is at `p`. */
  ghost predicate IsAt(contents: seq<Byte>, p: nat, r: Raw, check: Check)
  {
    && p + 12 + |r.data| <= |contents| && ChunkAt(contents, p, check) == ChunkOf(r, p, check)
    && contents[p + 8..p + 8 + |r.data|] == r.data
  }

  lemma WalkStops(contents: seq<Byte>, p: nat, rs: seq<Raw>, l: Loaded, check: Check, inflates: Inflates)
    requires rs != [] && IsAt(contents, p, rs[0], check) && Next(rs[0], l, check, inflates) == None
    ensures WalkFrom(contents, p, l, check, inflates) == Seen(rs, p, l, check, inflates)
  {
    WalkOnce(contents, p, rs[0], l, check, inflates, Walk([], l, true));
    SeenOnce(rs, p, l, check, inflates, Walk([], l, true));
  }

  lemma WalkGoesOn(contents: seq<Byte>, p: nat, rs: seq<Raw>, l: Loaded, check: Check, inflates: Inflates,
                   p': nat, rs': seq<Raw>, next: Loaded)
    requires rs != [] && IsAt(contents, p, rs[0], check) && Next(rs[0], l, check, inflates) == Some(next)
    requires p' == p + 12 + |rs[0].data| && rs' == rs[1..]
    requires WalkFrom(contents, p', next, check, inflates) == Seen(rs', p', next, check, inflates)
    ensures WalkFrom(contents, p, l, check, inflates) == Seen(rs, p, l, check, inflates)
  {
    WalkOnce(contents, p, rs[0], l, check, inflates, Seen(rs', p', next, check, inflates));
    SeenOnce(rs, p, l, check, inflates, Seen(rs', p', next, check, inflates));
  }

  lemma SeenOnce(rs: seq<Raw>, p: nat, l: Loaded, check: Check, inflates: Inflates, rest: Walk)
    requires rs != []
    requires match Next(rs[0], l, check, inflates)
      case None => true
      case Some(next) => rest == Seen(rs[1..], p + 12 + |rs[0].data|, next, check, inflates)
    ensures Seen(rs, p, l, check, inflates) == AfterChunk(ChunkOf(rs[0], p, check), rs[0].data, l, inflates, rest)
  {
    assert ChunkOf(rs[0], p, check).Usable() == rs[0].Readable(check);
  }

  /** What the walk does with one written chunk, if `rest` is the walk behind it. */
  lemma WalkOnce(contents: seq<Byte>, p: nat, r: Raw, l: Loaded, check: Check, inflates: Inflates, rest: Walk)
    requires IsAt(contents, p, r, check)
    requires match Next(r, l, check, inflates)
      case None => true
      case Some(next) => rest == WalkFrom(contents, p + 12 + |r.data|, next, check, inflates)
    ensures WalkFrom(contents, p, l, check, inflates) == AfterChunk(ChunkOf(r, p, check), r.data, l, inflates, rest)
  {
    var c := ChunkOf(r, p, check);
    assert c.Usable() == r.Readable(check) && c.Next() == p + 12 + |r.data|;
    if c.Usable() {
      assert Data(contents, c) == r.data;
    }
    WalkChunk(contents, p, c, r.data, l, check, inflates, rest);
  }

  /** What the walk does with the chunk it reads. */
  lemma WalkChunk(contents: seq<Byte>, p: nat, c: Chunk, data: seq<Byte>, l: Loaded, check: Check, inflates: Inflates,
                  rest: Walk)
    requires p < |contents| && c == ChunkAt(contents, p, check) && (c.Usable() ==> data == Data(contents, c))
    requires c.Usable() && Taken(l, c.kind, data, inflates).Some? ==>
      rest == WalkFrom(contents, c.Next(), Taken(l, c.kind, data, inflates).value, check, inflates)
    ensures WalkFrom(contents, p, l, check, inflates) == AfterChunk(c, data, l, inflates, rest)
  {
  }

  lemma Reassociated(a: seq<Byte>, b: seq<Byte>, c: seq<Byte>)
    ensures (a + b) + c == a + (b + c)
  {
  }

  lemma Behind(contents: seq<Byte>, p: nat, first: seq<Byte>, rest: seq<Byte>)
    requires p <= |contents| && contents[p..] == first + rest
    ensures p + |first| <= |contents| && contents[p + |first|..] == rest
  {
    assert contents[p..][|first|..] == contents[p + |first|..];
  }

  /** Whether every chunk is taken, one after the other. */
  predicate AllTaken(rs: seq<Raw>, l: Loaded, inflates: Inflates)
  {
    rs == [] ||
    match Taken(l, rs[0].kind, rs[0].data, inflates)
    case None => false
    case Some(next) => AllTaken(rs[1..], next, inflates)
  }

  /**
   The walk gets to the end of a list of acceptable chunks exactly if each has
   data and a check value other than zero. It stops at the first that has not:
   well if that is an IEND, with an error otherwise.
   */
  lemma {:induction false} SeesAll(rs: seq<Raw>, p: nat, l: Loaded, check: Check, inflates: Inflates)
    requires AllTaken(rs, l, inflates)
    ensures |Seen(rs, p, l, check, inflates).visited| == |rs| <==> forall r :: r in rs ==> r.Readable(check)
    ensures var seen := Seen(rs, p, l, check, inflates);
      var n := |seen.visited|;
      && n <= |rs| && (forall k :: 0 <= k < n ==> rs[k].Readable(check))
      && (n < |rs| ==> !rs[n].Readable(check))
      && seen.ok == (n < |rs| ==> rs[n].kind == IEND)
    decreases |rs|
  {
    if rs != [] && rs[0].Readable(check) {
      var next := Taken(l, rs[0].kind, rs[0].data, inflates).value;
      SeesAll(rs[1..], p + 12 + |rs[0].data|, next, check, inflates);
      assert rs == [rs[0]] + rs[1..];
    }
  }

  /** A chunk without data stops the walk: well if it is IEND, with an error otherwise. */
  lemma EmptyChunk(contents: seq<Byte>, p: nat, kind: seq<Byte>, after: seq<Byte>, l: Loaded, check: Check,
                   inflates: Inflates)
    requires |kind| == 4 && p <= |contents| && contents[p..] == Written(Raw(kind, []), check) + after
    ensures WalkFrom(contents, p, l, check, inflates) == Walk([], l, kind == IEND)
  {
    ReadWritten(contents, p, Raw(kind, []), after, check);
    WalkOnce(contents, p, Raw(kind, []), l, check, inflates, Walk([], l, true));
  }

  /** There are chunks with a check value of zero: the loading ends with an error at this one. */
  lemma ZeroCheckValueChunk(contents: seq<Byte>, p: nat, after: seq<Byte>, l: Loaded, inflates: Inflates)
    requires p <= |contents| && contents[p..] == Written(Raw(TEXT, ZERO_DATA), CheckValue) + after
    ensures CheckValue(TEXT + ZERO_DATA) == 0
    ensures WalkFrom(contents, p, l, CheckValue, inflates) == Walk([], l, false)
  {
    ZeroCheckValue();
    ReadWritten(contents, p, Raw(TEXT, ZERO_DATA), after, CheckValue);
    WalkOnce(contents, p, Raw(TEXT, ZERO_DATA), l, CheckValue, inflates, Walk([], l, true));
  }

  /** Whatever byte of type or data is changed, the chunk is not read any more. */
  lemma ChangeIsFound(contents: seq<Byte>, p: nat, i: nat, b: Byte)
    requires ChunkAt(contents, p, CheckValue).Usable()
    requires p + 4 <= i < p + 8 + ChunkAt(contents, p, CheckValue).size && b != contents[i]
    ensures ChunkAt(contents[i := b], p, CheckValue) == NO_CHUNK
  {
    var bytes := contents[p + 4..p + 8 + NumberAt(contents, p)];
    assert bytes[i - (p + 4)] == contents[i];
    OtherCheckValue(bytes, i - (p + 4), b);
    ChangeIsSeen(contents, p, i, b, CheckValue);
  }

  lemma ChangeIsSeen(contents: seq<Byte>, p: nat, i: nat, b: Byte, check: Check)
    requires ChunkAt(contents, p, check).Usable()
    requires p + 4 <= i < p + 8 + NumberAt(contents, p)
    requires var bytes := contents[p + 4..p + 8 + NumberAt(contents, p)];
      check(bytes[i - (p + 4) := b]) != check(bytes)
    ensures ChunkAt(contents[i := b], p, check) == NO_CHUNK
  {
    var changed := contents[i := b];
    var end := p + 8 + NumberAt(contents, p);
    assert changed[p..p + 4] == contents[p..p + 4];
    assert changed[end..end + 4] == contents[end..end + 4];
    assert contents[p + 4..p + 8] + contents[p + 8..end] == contents[p + 4..end];
    assert changed[p + 4..p + 8] + changed[p + 8..end] == changed[p + 4..end];
    assert changed[p + 4..end] == contents[p + 4..end][i - (p + 4) := b];
  }

  lemma OtherCheckValue(bytes: seq<Byte>, i: nat, b: Byte)
    requires i < |bytes| && b != bytes[i]
    ensures CheckValue(bytes[i := b]) != CheckValue(bytes)
  {
    OneByteChanged(ALL_ONES, bytes, i, b);
    ComplementIsInjective(Feed(ALL_ONES, bytes), Feed(ALL_ONES, bytes[i := b]));
  }
}
