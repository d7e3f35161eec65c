# Image codecs, rasterisers and protocols of the engine

A Dafny 4.11 model of the hand-written algorithms of the engine, with proofs of
what they promise. `dafny verify dfyconfig.toml` checks all of it.

| files | what they model |
|---|---|
| `Bits`, `Memory`, `Numbers`, `Wrappers` | bytes and bit order, block copies and rows, result types |
| `Streams` | the byte stream under the loaders |
| `GifLzwDecoder`, `GifLzwEncoder`, `GifImage` | the bit reader, the LZW decoder, the Appendix F encoder it must undo, sub-blocks and interlacing |
| `PngFilter`, `PngCrc`, `PngChunks` | row filters, the table-driven check value, the walk over the chunks |
| `LineRaster`, `EllipseRaster` | the error-accumulator line and the midpoint ellipse |
| `PlanarMemory`, `PlanarPainter`, `PlanarBlit` | four bit-planes in system memory: fills, the line reader, copies |
| `Colours`, `PaletteBlit`, `BmpWriter` | pixel formats, copies between palettes, the BMP file |
| `Keyboard`, `KeyboardRing` | the scancode decoder, and the ring between interrupt and poll as interleaved steps |
| `ResourceHandles`, `ResourceManager` | reference-counted handles as a state machine over all operations, and the statements that carry them out |
| `GdbHex`, `GdbPacket` | hexadecimal memory and packets of the GDB remote protocol |
| `DecimalPrinter` | integers in decimal |

Code that changes things in place is a class or a method on arrays, proved
against a function or a predicate on values; the lemmas are about those.
Reference forms come from the standards: GIF89a (sections 15 and 22, Appendices
E and F), RFC 2083 (sections 3.2, 3.4 and 6), the GDB Remote Serial Protocol.

## Where the code does less than its surroundings say

- An interlaced GIF with fewer bytes than pixels makes `ApplyInterlace` copy from
  behind its data, or to behind its result, before the size is checked
  (`GifImage.CopiesInsideExactly`); a file that is cut off inside the image does
  (`GifImage.CutOffImage`).
- A PNG chunk without data, or whose check value happens to be zero, ends the
  loading with an error, unless it is IEND (`PngChunks.SeesAll`,
  `PngChunks.EmptyChunk`, `PngChunks.ZeroCheckValueChunk`).
- An ellipse is drawn beside the rectangle that is passed whenever that has an
  even number of rows, and if it has an even number of columns unless it is very
  flat (`EllipseRaster.LeavesRectangle`). Of its own box, from the centre by the radii,
  it leaves only that of no width and three rows (`EllipseRaster.AstrayLeavesBox`,
  `EllipseRaster.ArcInBox`). Very flat ellipses have their ends cut off
  (`EllipseRaster.TipIsReached`).
- 256 unread scancodes look like none to the poll (`KeyboardRing.PollReads`,
  `KeyboardRing.PollTakes`). The shift codes that keyboards send around extended
  keys, marked as ignored in the table, are delivered as the unknown key, as any
  key of the table without a name is (`Keyboard.FakeShiftsDelivered`,
  `Keyboard.UnknownDelivered`).
- A resource that is loaded directly, dropped and loaded directly again is never
  there again (`ResourceHandles.LoadedAgain`, `ResourceHandles.DirectLoadYields`,
  `ResourceHandles.DeadForEver`). With id zero, look-ups find resources that were
  given to the manager (`ResourceHandles.GivenIsHandedOut`).
- A colon left in the third place of the packet buffer by an earlier packet is
  taken for one of the present packet (`GdbPacket.PacketRead`,
  `GdbPacket.StaleColon`). A payload as long as the buffer is not accepted, and
  its NUL falls behind the buffer (`GdbPacket.AcceptedIfShorter`).
- The smallest `int` cannot be negated by `num_digits`
  (`DecimalPrinter.IntVersionAgrees`).
- White is not preserved in channels of less than four bits, as the comment in
  `DefaultBitmapHelpers.hpp` has it (`Colours.ExtremesKept`).
- The block copies of `BitmapData::ReadLineInto` equal its general path only for
  32-bit pixels with a zero high byte (`Colours.Pixel32RoundTrip`) and palettes
  without repeated colours (`PaletteBlit.OwnColour`).
- The size field of a BMP file of four gigabytes or more is its size modulo 2 to
  the 32 (`BmpWriter.SizeField`).
- `InternalLazyResource` passes the constructor of its `StaticOptionControlBlock`
  one argument more than that takes, with the type first and the id in the place
  of the source location (`ResourceManager.hpp`, lines 122 and 159). The call as
  written has no meaning to model: `ResourceManager.Manager.Lazy` makes the block
  with the id and the type that were asked for.

## Model

| member | source | states |
|---|---|---|
| `Streams.Stream.Read` | engine/include/Engine/Platform/Stream.hpp:94-111 | A read of nothing or of more than there is fails and leaves the position; any other returns the next bytes and moves past them |
| `Streams.Stream.SeekTo` | engine/include/Engine/Platform/Stream.hpp:75-85 | A seek succeeds exactly up to the end of the stream, and otherwise leaves the position |
| `Streams.Stream.AtEnd` | engine/include/Engine/Platform/Stream.hpp:54 | At the end exactly when no byte is ahead |
| `Bits.PackUnpack` | engine/src/Loaders/SpriteGifLoader.cpp:19-36 | Bits packed low bit first into bytes come back in order, with fewer than eight bits of padding |
| `Bits.NthBitIs` | engine/src/Loaders/SpriteGifLoader.cpp:20-36 | The bit that the reader takes at position k of a byte is the one with the weight 2 to the k |
| `GifLzwDecoder.BitStreamReader.ReadBits` | engine/src/Loaders/SpriteGifLoader.cpp:20-36 | Reads the number made of the next bits, low bit first, and leaves exactly the bits after them; fails when there are too few |
| `GifLzwDecoder.BitStreamReader.EndOfStream` | engine/src/Loaders/SpriteGifLoader.cpp:38-40 | True exactly when no bits remain |
| `GifLzwDecoder.InitialInv` | engine/src/Loaders/SpriteGifLoader.cpp:104-121 | The state after the set-up, which a clear code restores, meets the invariant |
| `GifLzwDecoder.Entry` | engine/src/Loaders/SpriteGifLoader.cpp:114-186 | In every reachable dictionary each code stands for a non-empty string of indices below the clear code, a later one being an older data entry plus one index, no longer than its position since the last clear code allows |
| `GifLzwDecoder.CodeSizeIsBitLength` | engine/src/Loaders/SpriteGifLoader.cpp:166-169 | In every reachable state the code width is the bit length of the next free code, capped at 12 |
| `GifLzwDecoder.RefusedCodes` | engine/src/Loaders/SpriteGifLoader.cpp:136-189 | Exactly a code above the next free one is an error, and that one itself where no code came before; exactly the code behind the clear code stops |
| `GifLzwDecoder.TableGrows` | engine/src/Loaders/SpriteGifLoader.cpp:136-187 | Every data code but the first after a clear code adds one entry, until there are 4096, and becomes the previous code |
| `GifLzwDecoder.MinimumRefused` | engine/src/Loaders/SpriteGifLoader.cpp:98-102 | The error for the minimum code size comes up exactly outside 2 to 8 |
| `GifLzwDecoder.CutOffData` | engine/src/Loaders/SpriteGifLoader.cpp:122-134 | Data that stop early decode to a prefix of what the whole data decode to, and never bring up an error that those do not |
| `GifLzwDecoder.AddEntryInv` | engine/src/Loaders/SpriteGifLoader.cpp:160-169 | Adding an older entry plus one index keeps the dictionary well formed and the width right |
| `GifLzwDecoder.TurnKeepsInv` | engine/src/Loaders/SpriteGifLoader.cpp:122-190 | On any code, valid or not, a turn keeps the invariant, and puts out a non-empty string of indices below the clear code for every data code it accepts |
| `GifLzwDecoder.DecodeTurn` | engine/src/Loaders/SpriteGifLoader.cpp:122-190 | Each turn stops, fails, or uses up one code width of bits and goes on with the same final result |
| `GifLzwDecoder.StoreEntry` | engine/src/Loaders/SpriteGifLoader.cpp:164-169 | The slot for the next code, the counter and the width move on together |
| `GifLzwDecoder.TakeDataCode` | engine/src/Loaders/SpriteGifLoader.cpp:155-189 | The two branches for data codes do what the state machine does, or report the invalid code |
| `GifLzwDecoder.LZWDecompress` | engine/src/Loaders/SpriteGifLoader.cpp:98-193 | The loop over dictionary vectors returns what the state machine returns, for every byte vector and minimum code size, and rejects sizes outside 2 to 8 |
| `GifLzwEncoder.OutputCode` | engine/src/Loaders/SpriteGifLoader.cpp:155-187 | The code of any string in the encoder table makes the decoder put out that string and catch up with the table, also when it does not have the entry yet |
| `GifLzwEncoder.WidthsAgree` | engine/src/Loaders/SpriteGifLoader.cpp:166-169 | The encoder, which looks at its table before it adds an entry, and the decoder, which looks after, come to the same code width, also at 4096 entries |
| `GifLzwEncoder.LinkedAfterCode` | engine/src/Loaders/SpriteGifLoader.cpp:155-171 | After the encoder adds its next entry the decoder is exactly one entry behind again, with equal widths |
| `GifLzwEncoder.LinkedAtStart` | engine/src/Loaders/SpriteGifLoader.cpp:136-149 | After a clear code both sides agree |
| `GifLzwEncoder.WordsFoundInBits` | engine/src/Loaders/SpriteGifLoader.cpp:122-134 | If the widths agree, the decoder finds each code among the packed bits, whatever follows them |
| `GifLzwEncoder.DecodeEncodeFrom` | engine/src/Loaders/SpriteGifLoader.cpp:122-190 | From any linked pair of states the decoder puts out the string that the rest of the encoding stands for |
| `GifLzwEncoder.DecodeEncode` | engine/src/Loaders/SpriteGifLoader.cpp:98-193 | Round trip: for every minimum code size, index sequence, choice of clear codes and trailing bytes, decoding the packed Appendix F encoding gives the sequence back |
| `GifLzwEncoder.DecodeWithoutEnd` | engine/src/Loaders/SpriteGifLoader.cpp:122-134 | All indices come out even if the data stop before the end code or within it |
| `GifLzwEncoder.OnePixel` | engine/src/Loaders/SpriteGifLoader.cpp:98-193 | The bytes 44 01 are one pixel of the first of four colours, and 0C alone is one of the second without an end code |
| `GifImage.UnblockBlocks` | engine/src/Loaders/SpriteGifLoader.cpp:501-525 | However data are split into sub-blocks, reading them puts the data together and stops behind the terminator |
| `GifImage.UnblockedAreBlocks` | engine/src/Loaders/SpriteGifLoader.cpp:501-525 | Whatever is accepted is a list of non-empty sub-blocks and a terminator |
| `GifImage.ReadCompressedImageData` | engine/src/Loaders/SpriteGifLoader.cpp:501-525 | Returns the joined sub-blocks and leaves the stream behind the terminator, or nothing if the stream ends early |
| `GifImage.InterlaceOrderIsPermutation` | engine/src/Loaders/SpriteGifLoader.cpp:199-213 | The four passes list every row below the height exactly once |
| `GifImage.InterlaceOrderPlace` | engine/src/Loaders/SpriteGifLoader.cpp:199-213 | Where each row is stored, in closed form: multiples of eight first, then those between, then every other even row, then the odd ones |
| `GifImage.PlacedPixel` | engine/src/Loaders/SpriteGifLoader.cpp:208-213 | Which stored byte each pixel of a de-interlaced image is |
| `GifImage.CopyPass` | engine/src/Loaders/SpriteGifLoader.cpp:208-213 | One pass puts the next stored rows in their places and leaves those placed before |
| `GifImage.ApplyInterlace` | engine/src/Loaders/SpriteGifLoader.cpp:196-216 | Row i of the data ends up at row number i of the interlace order, for every width and height, unless a row copy leaves its vector, which one does exactly if there are fewer bytes than pixels |
| `GifImage.CopiesInsideExactly` | engine/src/Loaders/SpriteGifLoader.cpp:208-213 | All row copies of the four passes stay inside the stored data and inside the result exactly if there is a byte for every pixel |
| `GifImage.InterlaceInverse` | engine/src/Loaders/SpriteGifLoader.cpp:196-216 | De-interlacing undoes the row order of GIF89a Appendix E |
| `GifImage.ReadImage` | engine/src/Loaders/SpriteGifLoader.cpp:542-569 | From the minimum code size to the checked raster, with every failure; undefined behaviour stands for a row copy of the de-interlacer that leaves its vector |
| `GifImage.InterlacedOutcome` | engine/src/Loaders/SpriteGifLoader.cpp:560-569 | An interlaced image is undefined behaviour exactly if it has too few bytes, and refused exactly if it has too many |
| `GifImage.CutOffImage` | engine/src/Loaders/SpriteGifLoader.cpp:501-563 | If the file ends inside the sub-blocks of an interlaced image with pixels, the data are dropped and the first row copy leaves the empty vector |
| `GifImage.ImageRoundTrip` | engine/src/Loaders/SpriteGifLoader.cpp:501-569 | Whole image: for every raster, code size, clear codes, division into sub-blocks and row order, the steps of the loader return the raster and leave the stream behind the image |
| `PngFilter.PaethIsNearest` | engine/src/Loaders/PngLoader.cpp:258-273 | The predictor is one of its arguments, none is closer to the linear estimate, and ties go to left, then above |
| `PngFilter.UnfilterFilter` | engine/src/Loaders/PngLoader.cpp:306-352 | Undoing a filter of RFC 2083 section 6 on a filtered row gives the row, whatever the row above |
| `PngFilter.FilterUnfilter` | engine/src/Loaders/PngLoader.cpp:306-352 | Filtering an unfiltered row gives the filtered bytes back, so no bytes are lost or confused |
| `PngFilter.UnfilteredIs` | engine/src/Loaders/PngLoader.cpp:306-343 | Each byte of a restored row is the filtered byte plus, by filter, nothing, the byte to the left, the one above, their mean rounded down, or the nearest of left, above and upper left, modulo 256 |
| `PngFilter.ImageByteIs` | engine/src/Loaders/PngLoader.cpp:290-358 | The same for every byte of an image, with zeros above the first row |
| `PngFilter.UndoSub` | engine/src/Loaders/PngLoader.cpp:311-317 | In place: each byte plus the restored byte to its left |
| `PngFilter.UndoUp` | engine/src/Loaders/PngLoader.cpp:319-324 | In place: each byte plus the byte above |
| `PngFilter.UndoAverage` | engine/src/Loaders/PngLoader.cpp:326-333 | In place: each byte plus the mean of left and above, rounded down |
| `PngFilter.UndoPaeth` | engine/src/Loaders/PngLoader.cpp:335-343 | In place: each byte plus the predictor of its restored neighbours |
| `PngFilter.UnfilterRow` | engine/src/Loaders/PngLoader.cpp:306-352 | Filters 0 to 4 are undone, any other is refused |
| `PngFilter.WriteLine` | engine/src/Bitmap_Generic.cpp:57-63 | One row of the bitmap is written; the padding and all other rows stay |
| `PngFilter.ApplyRows` | engine/src/Loaders/PngLoader.cpp:295-358 | The rows up to the first unknown filter are written, each restored from the one above, and no other byte changes |
| `PngFilter.ApplyFilters` | engine/src/Loaders/PngLoader.cpp:275-361 | Too little data changes nothing; otherwise the result says whether all filters were known, and the good rows are written |
| `PngFilter.UnfilterImage` | engine/src/Loaders/PngLoader.cpp:290-358 | For every image and every choice of filters, the rows restored from the filtered form are the rows of the image |
| `PngFilter.LoadFiltered` | engine/src/Loaders/PngLoader.cpp:275-361 | Loading the filtered form of an image leaves the image in the bitmap |
| `PngCrc.TableByte` | engine/src/Loaders/PngLoader.cpp:140-143 | One step by table is eight bit-by-bit steps of RFC 2083 section 3.4, for every 32-bit register and byte |
| `PngCrc.MakeEntry` | engine/src/Loaders/PngLoader.cpp:90-100 | The inner loop makes the table entry: eight steps |
| `PngCrc.GenerateCRCTable` | engine/src/Loaders/PngLoader.cpp:84-103 | All 256 entries are right |
| `PngCrc.UpdateCrc` | engine/src/Loaders/PngLoader.cpp:156-158 | The loop over a block feeds its bytes bit by bit |
| `PngCrc.FeedConcat` | engine/src/Loaders/PngLoader.cpp:136-160 | Data may be taken in blocks of any size |
| `PngCrc.OneByteChanged` | engine/src/Loaders/PngLoader.cpp:136-169 | Whichever byte of the data is changed, the check value changes |
| `PngCrc.ComplementIsInjective` | engine/src/Loaders/PngLoader.cpp:166 | Different registers have different check values |
| `PngCrc.EndCheckValue` | engine/src/Loaders/PngLoader.cpp:136-169 | The check value of a chunk without data of type IEND is AE426082 |
| `PngChunks.BigEndianRoundTrip` | engine/src/Loaders/PngLoader.cpp:105-121 | The four bytes of a number read as the number |
| `PngChunks.ReadPNGUint32` | engine/src/Loaders/PngLoader.cpp:105-121 | Reads a big-endian number; one that is cut off reads as zero and leaves the position |
| `PngChunks.ReadCrc` | engine/src/Loaders/PngLoader.cpp:136-160 | The blocks of at most 4096 bytes give the one-pass check value of type and data, or fail if the data are cut off |
| `PngChunks.ReadChunk` | engine/src/Loaders/PngLoader.cpp:123-177 | Returns the chunk at the position, or the empty chunk if it is cut off or its check value is wrong, and goes back to its data |
| `PngChunks.ChunkAt` | engine/src/Loaders/PngLoader.cpp:70-76 | A usable chunk lies wholly inside the stream and its skip leads strictly forward, so the seek behind it cannot fail |
| `PngChunks.ProcessPLTEData` | engine/src/Loaders/PngLoader.cpp:179-200 | Takes the bytes of a palette, and refuses one that is not a multiple of three or too big |
| `PngChunks.Process` | engine/src/Loaders/PngLoader.cpp:474-491 | Palette and image data go to their readers, other chunks are passed over; the stream may be left anywhere |
| `PngChunks.ReadChunks` | engine/src/Loaders/PngLoader.cpp:472-505 | The loop visits what the walk visits, on any input, and comes to an end |
| `PngChunks.ReadWritten` | engine/src/Loaders/PngLoader.cpp:123-177 | A chunk written as in RFC 2083 section 3.2 is read back wherever it is in a file |
| `PngChunks.WalkWritten` | engine/src/Loaders/PngLoader.cpp:472-505 | The walk over a written list followed by IEND visits just that list, in order and each chunk at its data, up to the first refused or unreadable one, and never looks behind IEND |
| `PngChunks.WalkLoads` | engine/src/Loaders/PngLoader.cpp:472-505 | On any file, the walk sees the usable chunks that follow each other up to the first that is refused; what is loaded are the data of the IDAT chunks before in order and the last palette; refused is exactly a palette of more than 256 colours or a broken one, or data that zlib does not accept behind those before; and it ends well exactly at the end of the file or at IEND |
| `PngChunks.EndWritten` | engine/src/Loaders/PngLoader.cpp:123-177 | An IEND chunk is the twelve bytes 00 00 00 00 49 45 4E 44 AE 42 60 82 |
| `PngChunks.SeesAll` | engine/src/Loaders/PngLoader.cpp:70-72 | The walk gets to the end of an acceptable list exactly if every chunk has data and a check value other than zero, and otherwise stops at the first that has not, with an error unless that is an IEND |
| `PngChunks.ZeroCheckValueChunk` | engine/src/Loaders/PngLoader.cpp:70-72 | A tEXt chunk with four certain bytes has the check value zero, and ends the loading with an error wherever it is |
| `PngChunks.EmptyChunk` | engine/src/Loaders/PngLoader.cpp:497-504 | A chunk without data ends the walk: well for IEND, with an error otherwise |
| `PngChunks.ChangeIsFound` | engine/src/Loaders/PngLoader.cpp:165-169 | Whichever byte of type or data is changed, the chunk is not read any more |
| `LineRaster.Painter.DrawLine` | engine/src/Painter_Generic.cpp:46-72 | With a pen the pixels drawn are exactly the line between the end points, without one none; no local variable leaves 32 bits and no coordinate 16 |
| `LineRaster.Advance` | engine/src/Painter_Generic.cpp:62-70 | One turn goes one step along the major axis and keeps the error term equal to its closed form |
| `LineRaster.LineEnds` | engine/src/Painter_Generic.cpp:46-72 | The first point is the start and the last one the end |
| `LineRaster.LineIsClose` | engine/src/Painter_Generic.cpp:46-72 | No point is more than half a pixel from the ideal line, nor outside the box of the end points |
| `LineRaster.LineIsConnected` | engine/src/Painter_Generic.cpp:62-70 | Each point is one step along the major axis from the one before and at most one along the minor axis |
| `LineRaster.LineIsUnique` | engine/src/Painter_Generic.cpp:46-72 | There is one such sequence of max(dx, dy in magnitude) + 1 points |
| `LineRaster.LinePoint` | engine/src/Painter_Generic.cpp:46-72 | Every point in closed form, whichever axis is the major one; halves go away from the start |
| `LineRaster.LineReversed` | engine/src/Painter_Generic.cpp:63-70 | Of a line and the same line drawn from its other end, the points opposite each other are the same exactly where the ideal line is not half-way between two pixels |
| `EllipseRaster.LrintOfQuarter` | engine/include/Engine/Math/Math.hpp:15-26 | Both versions of lrint give the same for the quarters that occur |
| `EllipseRaster.FirstFlatP` | engine/src/Painter_PaintDevice.cpp:177 | The first p is the midpoint value at (1, ry - 1/2), rounded down by a constant |
| `EllipseRaster.NextFlatP` | engine/src/Painter_PaintDevice.cpp:201-214 | In the first loop p stays the midpoint value at (x + 1, y - 1/2), and its sign picks the next pixel |
| `EllipseRaster.FirstSteepP` | engine/src/Painter_PaintDevice.cpp:215 | The p computed between the loops is the midpoint value at (x + 1/2, y - 1), rounded down by a constant |
| `EllipseRaster.NextSteepP` | engine/src/Painter_PaintDevice.cpp:216-229 | In the second loop p stays the midpoint value at (x + 1/2, y - 1), and its sign picks the next pixel |
| `EllipseRaster.Painter.PlotFlatPart` | engine/src/Painter_PaintDevice.cpp:201-214 | The first loop ends and plots the flat part of the arc |
| `EllipseRaster.Painter.PlotSteepPart` | engine/src/Painter_PaintDevice.cpp:216-229 | The second loop ends at the middle row and completes the arc |
| `EllipseRaster.Painter.PlotSymmetrical` | engine/src/Painter_PaintDevice.cpp:180-199 | Four pixels with the pen, and the two rows between them with the brush |
| `EllipseRaster.Painter.DrawEllipse` | engine/src/Painter_PaintDevice.cpp:170-230 | Plots exactly the pixels of the midpoint rule, for every rectangle, pen and brush |
| `EllipseRaster.PlotsAre` | engine/src/Painter_PaintDevice.cpp:180-199 | Plotted are exactly, with the pen, the four reflections of every pixel of the arc in its colour, and with the brush, every column from the left to the right one in both rows |
| `EllipseRaster.PenComesLast` | engine/src/Painter_PaintDevice.cpp:181-198 | The four pixels of the pen come after those of the brush, so they are the ones that stay |
| `EllipseRaster.ArcInBox` | engine/src/Painter_PaintDevice.cpp:201-229 | Pixels stay in the box, x never decreases, and rows go down by at most one; for every ellipse but the one of no width and three rows |
| `EllipseRaster.RowReached` | engine/src/Painter_PaintDevice.cpp:201-229 | Every row from the top to the middle is reached |
| `EllipseRaster.FlatPartIsAccurate` | engine/src/Painter_PaintDevice.cpp:201-214 | In the flat part the ellipse passes within half a pixel above or below the pixel |
| `EllipseRaster.ArcIsAccurate` | engine/src/Painter_PaintDevice.cpp:201-229 | The ellipse passes within half a row of every pixel of the flat part, and within one column of every pixel of the steep part but a last one that is reached from the flat part, of which it passes within half a row |
| `EllipseRaster.FirstSteepPixelIsOff` | engine/src/Painter_PaintDevice.cpp:215-229 | With radii 1 and 8 the first pixel of the steep part is more than half a pixel away in both directions |
| `EllipseRaster.TipIsReached` | engine/src/Painter_PaintDevice.cpp:201-229 | The arc gets to the full width exactly if the ellipse is not too flat: rx is 0 or the square of rx is less than four times the square of ry times 2 rx - 1 |
| `EllipseRaster.ArcIsUnique` | engine/src/Painter_PaintDevice.cpp:201-229 | The midpoint rule leaves no choice |
| `EllipseRaster.AstrayLeavesBox` | engine/src/Painter_PaintDevice.cpp:201-229 | The ellipse of no width and three rows has a pixel beside its box |
| `EllipseRaster.DotsInBox` | engine/src/Painter_PaintDevice.cpp:180-229 | Nothing is plotted further from the centre than the arc goes, if that is inside the coordinates |
| `EllipseRaster.LeavesRectangle` | engine/src/Painter_PaintDevice.cpp:170-230 | If the coordinates stay in 16 bits, something is plotted outside the rectangle that was passed exactly if its height is even, or its width is even and the arc gets to the full width, or it is the one without width and with three rows |
| `EllipseRaster.RowIsPlotted` | engine/src/Painter_PaintDevice.cpp:180-229 | Every row of the box gets a pixel |
| `PlanarMemory.BlendByteBits` | engine/src/Backend_DOS/Video/PlanarPainter.cpp:21-35 | Blending a byte changes just the bits under the mask, in one byte of one plane |
| `PlanarMemory.BitAddress` | engine/src/Backend_DOS/Video/PlanarPainter.cpp:14-35 | Where the bit of a plane, column and row is in memory: planes and rows follow each other, and the leftmost pixel is the highest bit of its byte |
| `PlanarMemory.SpliceBits` | engine/src/Backend_DOS/Video/PlanarPainter.cpp:253-264 | Copying bytes into a row of a plane changes just the columns of those bytes |
| `PlanarMemory.BitsDetermine` | engine/src/Backend_DOS/Video/PlanarSurfaceHw.hpp:23-30 | Memories whose bits agree at every plane, column and row are the same |
| `PlanarPainter.PlanarSurface.BlendPlanes` | engine/src/Backend_DOS/Video/PlanarPainter.cpp:134-141 | In all four planes the bits under the mask become those of the index, and no other bit changes |
| `PlanarPainter.PlanarSurface.WritePixelPlanar` | engine/src/Backend_DOS/Video/PlanarPainter.cpp:5-37 | Sets one pixel, or nothing outside the surface |
| `PlanarPainter.PlanarSurface.RangeMask` | engine/src/Backend_DOS/Video/PlanarPainter.cpp:130-131 | The mask has just the wanted bits |
| `PlanarPainter.PlanarSurface.FillRect` | engine/src/Backend_DOS/Video/PlanarPainter.cpp:73-145 | Byte by byte: the clipped rectangle gets the index in all planes, every other bit stays |
| `PlanarPainter.PlanarSurface.FillByPixels` | engine/src/Backend_DOS/Video/PlanarPainter.cpp:5-37 | The same, pixel by pixel: the slow form that the fill stands for |
| `PlanarPainter.PaintIsUnique` | engine/src/Backend_DOS/Video/PlanarPainter.cpp:122-145 | Filling by bytes and by pixels leaves the same memory |
| `PlanarPainter.PaintedPixels` | engine/src/Backend_DOS/Video/PlanarPainter.cpp:122-145 | Each pixel of the rectangle is the index modulo 16, each other pixel is unchanged |
| `PlanarPainter.PaintedBytes` | engine/src/Backend_DOS/Video/PlanarPainter.cpp:122-145 | Bit by bit in memory: plane p of the rectangle gets the bit of the index with weight 2 to the p, every other bit stays |
| `PlanarPainter.IndexBitIs` | engine/src/Backend_DOS/Video/PlanarPainter.cpp:134-141 | Plane p takes the bit of the index with weight 2 to the p |
| `PlanarPainter.PlanarSurface.ReadLineInto` | engine/src/Backend_DOS/Video/PlanarSurfaceHw.cpp:12-68 | Delivers the wanted pixels of a row as indices, in order, clipped to the surface, and leaves the rest of the buffer |
| `PlanarPainter.ReadAfterPaint` | engine/src/Backend_DOS/Video/PlanarSurfaceHw.cpp:25-68 | After a fill the line reader returns the index modulo 16 |
| `PlanarBlit.BlitAligned` | engine/src/Backend_DOS/Video/PlanarPainter.cpp:248-265 | Four block copies a row leave the source bits in the rectangle and every other bit as it was |
| `PlanarBlit.BlitBitByBit` | engine/src/Backend_DOS/Video/PlanarPainter.cpp:312-329 | So does reading each row as indices and setting or clearing each bit |
| `PlanarBlit.BlitBit` | engine/src/Backend_DOS/Video/PlanarPainter.cpp:321-326 | Sets or clears one bit of one plane |
| `PlanarBlit.CopyIsUnique` | engine/src/Backend_DOS/Video/PlanarPainter.cpp:225-329 | Both ways leave the same memory |
| `PlanarBlit.CopiedPixels` | engine/src/Backend_DOS/Video/PlanarPainter.cpp:225-329 | Every clipped pixel is the one of the source, no other changes |
| `PlanarBlit.DrawnPixels` | engine/src/Backend_DOS/Video/PlanarPainter.cpp:214-329 | Which pixels a drawing changes, with clipping, and which source pixel each of them becomes |
| `PlanarBlit.DrawSurface` | engine/src/Backend_DOS/Video/PlanarPainter.cpp:214-329 | Clips to the target and copies, by whichever way |
| `Keyboard.Portions` | engine/src/Backend_DOS/keyboard.cpp:437-498 | Bytes may be handed to the decoder in any portions, also inside a prefixed code |
| `Keyboard.KeyDownExactly` | engine/src/Backend_DOS/keyboard.cpp:443-495 | A byte delivers a key exactly if it is a press outside the pause code and the table has that number for it, prefixed or not as it came |
| `Keyboard.PressDelivered` | engine/src/Backend_DOS/keyboard.cpp:489-495 | A press is delivered once, alone but for a quit in front of the escape key |
| `Keyboard.PrefixLasts` | engine/src/Backend_DOS/keyboard.cpp:445-469 | The prefix lasts to the next byte that is no prefix nor part of the pause code, which lasts five bytes |
| `Keyboard.OnePlaceForEachKey` | engine/src/Backend_DOS/keyboard.cpp:196-392 | Every named key of either table is pressed by one scancode, and only by that one |
| `Keyboard.OneCode` | engine/src/Backend_DOS/keyboard.cpp:443-495 | A complete key code does what it means and leaves the decoder idle |
| `Keyboard.AllCodes` | engine/src/Backend_DOS/keyboard.cpp:443-495 | So does any list of key codes |
| `Keyboard.UnknownDelivered` | engine/src/Backend_DOS/keyboard.cpp:293-392 | With the prefix, exactly the presses of the scancodes without a name in the table are delivered as the unknown key |
| `Keyboard.FakeShiftsDelivered` | engine/src/Backend_DOS/keyboard.cpp:338-351 | The shift codes 2A and 36 behind the prefix are delivered as the unknown key when they go down, though the table has them to be ignored |
| `Keyboard.QuitIsEscape` | engine/src/Backend_DOS/keyboard.cpp:489-495 | The engine is told to quit exactly by the escape key going down outside a prefixed code |
| `KeyboardRing.InterruptKeepsInv` | engine/src/Backend_DOS/keyboard.cpp:25-30 | An interrupt appends a byte to the unread ones as long as they stay below 256 |
| `KeyboardRing.PollKeepsInv` | engine/src/Backend_DOS/keyboard.cpp:441-496 | Every step of the poll keeps the ring, the indices and the decoder in step with the bytes sent |
| `KeyboardRing.EveryRun` | engine/src/Backend_DOS/keyboard.cpp:25-498 | In every interleaving of interrupts and poll steps with at most 255 unread bytes, state and actions are those of decoding the bytes read so far |
| `KeyboardRing.Delivered` | engine/src/Backend_DOS/keyboard.cpp:25-498 | The events delivered are the decoding of the bytes sent, in order, wherever polls split them |
| `KeyboardRing.KeysDelivered` | engine/src/Backend_DOS/keyboard.cpp:25-498 | If the bytes sent are key codes and all are read, the engine has done what the keys mean |
| `KeyboardRing.EveryRunLatest` | engine/src/Backend_DOS/keyboard.cpp:25-30 | In every run whatsoever the ring holds the latest 256 bytes |
| `KeyboardRing.PollReads` | engine/src/Backend_DOS/keyboard.cpp:441-445 | After any run, a poll that nothing interrupts reads the latest bytes, as many as are unread modulo 256: all of them exactly if they are at most 255 |
| `KeyboardRing.PollTakes` | engine/src/Backend_DOS/keyboard.cpp:437-445 | After any run, whatever interrupts fall into it, a poll takes as many bytes as were unread modulo 256 when it looked |
| `KeyboardRing.Driver.KeyboardIRQHandler` | engine/src/Backend_DOS/keyboard.cpp:25-30 | The handler is the interrupt step, wherever the poll is |
| `KeyboardRing.Driver.Decode` | engine/src/Backend_DOS/keyboard.cpp:445-495 | The rest of the loop body is the step that takes a byte |
| `KeyboardRing.Driver.SendKeyboardEvent` | engine/src/Backend_DOS/keyboard.cpp:437-498 | The poll with interrupts at every point is a run of the steps, ends, and reads all that was there when it looked |
| `ResourceHandles.StepKeepsCounted` | engine/include/Engine/ResourcePtr.hpp:88-141 | Every operation keeps each count equal to the number of live handles |
| `ResourceHandles.StepKeepsOwned` | engine/include/Engine/ResourcePtr.hpp:36-44 | No resource has two owners or is deleted twice or while a block holds it |
| `ResourceHandles.StepKeepsDistinct` | engine/include/Engine/Platform/ResourceManager.hpp:104-162 | No two blocks share a non-zero id and a type |
| `ResourceHandles.StepKeepsAccounted` | engine/include/Engine/ResourcePtr.hpp:36-44 | Every resource ever made is held or has been deleted |
| `ResourceHandles.RunKeepsInv` | engine/include/Engine/ResourcePtr.hpp:84-167 | All of that after any run of operations |
| `ResourceHandles.DeletedWithLastHandle` | engine/include/Engine/ResourcePtr.hpp:37-44 | A resource stays while its block has a handle after the step, and is deleted in the step that takes the last one, also in an assignment within one block |
| `ResourceHandles.OthersStay` | engine/include/Engine/ResourcePtr.hpp:84-141 | Every operation leaves the handles that it does not name, and what they refer to |
| `ResourceHandles.TargetsAfter` | engine/include/Engine/ResourcePtr.hpp:84-141 | What each operation lets its handles refer to, in terms of what they referred to before: copies both the same, moves leave the sentinel, default and null are the sentinel |
| `ResourceHandles.KeepsResource` | engine/include/Engine/ResourcePtr.hpp:36-49 | A handle that is left alone keeps its resource over any run of operations on others |
| `ResourceHandles.CopyHasResource` | engine/include/Engine/ResourcePtr.hpp:90 | What is got through a handle is got through every copy of it for as long as the copy lives, also when the first handle is gone |
| `ResourceHandles.GetYields` | engine/include/Engine/ResourcePtr.hpp:46-49 | A get gives the resource that is there, or a new one exactly if the block is lazy and the loader has it |
| `ResourceHandles.CopyAssignKeepsCounted` | engine/include/Engine/ResourcePtr.hpp:101-116 | Assignment that drops one count and raises another, of the same block or not, keeps the counts |
| `ResourceHandles.MoveAssignKeepsCounted` | engine/include/Engine/ResourcePtr.hpp:118-135 | So does a move, which takes over the reference of the other handle |
| `ResourceHandles.NothingLeft` | engine/include/Engine/ResourcePtr.hpp:37-44 | When no handle refers to a block, every resource ever made has been deleted |
| `ResourceHandles.SentinelIsHarmless` | engine/include/Engine/ResourcePtr.hpp:61-74 | Worlds that differ in the count of the shared sentinel only still do so after the same operation |
| `ResourceHandles.SameKeySameBlock` | engine/src/ResourceManager.cpp:58-68 | Live handles to blocks of one non-zero id and type share one block |
| `ResourceHandles.LookUpHasKey` | engine/include/Engine/Platform/ResourceManager.hpp:104-162 | A look-up gives a handle to a block with the key, or the sentinel |
| `ResourceHandles.LookUpShares` | engine/include/Engine/Platform/ResourceManager.hpp:240-252 | A look-up of a key that some handle has gives its block |
| `ResourceHandles.GivenIsHandedOut` | engine/include/Engine/Platform/ResourceManager.hpp:222-225 | After any run, a look-up hands out a resource that was given to the manager exactly if its id is zero and the first block of its type with id zero is one of those |
| `ResourceHandles.ZeroIdIsShared` | engine/include/Engine/Platform/ResourceManager.hpp:222-225 | It happens: a resource given to the manager comes out of a look-up with id zero |
| `ResourceHandles.DeadStaysDead` | engine/src/ResourceManager.cpp:83 | A block that is not lazy stays empty once it has lost its resource |
| `ResourceHandles.DirectLoadYields` | engine/include/Engine/Platform/ResourceManager.hpp:239-252 | A resource that is loaded directly and got is there exactly if no block has its key and the loader has it, or the block that has it is lazy or not empty |
| `ResourceHandles.LazyYields` | engine/include/Engine/Platform/ResourceManager.hpp:104-162 | A lazy look-up followed by a get gives a resource exactly if the key is not dead and, where no block has it, the loader can load it; nothing is loaded before |
| `ResourceHandles.DeadForEver` | engine/src/ResourceManager.cpp:70-101 | A key whose block is empty and not lazy stays so after any run |
| `ResourceHandles.LoadedAgain` | engine/include/Engine/Platform/ResourceManager.hpp:239-252 | A resource loaded directly, dropped, and loaded directly again is not there |
| `ResourceManager.Manager.AddStrongRef` | engine/include/Engine/ResourcePtr.hpp:36 | Raises one count |
| `ResourceManager.Manager.RemoveStrongRef` | engine/include/Engine/ResourcePtr.hpp:37-44 | Lowers one count, and deletes at zero |
| `ResourceManager.Manager.CopyHandle` | engine/include/Engine/ResourcePtr.hpp:90 | The copying constructor |
| `ResourceManager.Manager.MoveHandle` | engine/include/Engine/ResourcePtr.hpp:91 | The moving constructor: the other handle goes to the sentinel, no count changes |
| `ResourceManager.Manager.DestroyHandle` | engine/include/Engine/ResourcePtr.hpp:99 | The destructor |
| `ResourceManager.Manager.AssignCopy` | engine/include/Engine/ResourcePtr.hpp:101-108 | The copying assignment, statement by statement |
| `ResourceManager.Manager.AssignMove` | engine/include/Engine/ResourcePtr.hpp:118-125 | The moving assignment, statement by statement |
| `ResourceManager.Manager.AssignNull` | engine/include/Engine/ResourcePtr.hpp:137-141 | The assignment of null |
| `ResourceManager.Manager.GetResource` | engine/include/Engine/ResourcePtr.hpp:46-49 | The resource, loaded now if its block is lazy and empty |
| `ResourceManager.Manager.FindKnownControlBlockFor` | engine/src/ResourceManager.cpp:58-68 | The first block with the id and type |
| `ResourceManager.Manager.MakeMemoryContainer` | engine/src/ResourceManager.cpp:70-101 | Appends a block that has its resource |
| `ResourceManager.Manager.Lazy` | engine/include/Engine/Platform/ResourceManager.hpp:104-162 | Find a block, or make a lazy one with the id and type that were asked for |
| `ResourceManager.Manager.LoadDirectly` | engine/include/Engine/Platform/ResourceManager.hpp:239-252 | Find a block or load and make one |
| `ResourceManager.Manager.Own` | engine/include/Engine/Platform/ResourceManager.hpp:222-225 | A block for a resource given to the manager |
| `Colours.ChannelRoundTrip` | engine/include/Engine/DefaultBitmapHelpers.hpp:13-72 | A channel of any width survives being read as a colour and written back |
| `Colours.CompressKeepsHighBits` | engine/include/Engine/DefaultBitmapHelpers.hpp:46-72 | A channel of b bits keeps the highest b bits of the byte |
| `Colours.FastPathsAgree` | engine/include/Engine/DefaultBitmapHelpers.hpp:20-41 | The fast paths for five, six and eight bits equal the general path |
| `Colours.ExtremesKept` | engine/include/Engine/DefaultBitmapHelpers.hpp:35-39 | Black stays black, and white stays white exactly in channels of four bits or more |
| `Colours.Pixel16RoundTrip` | engine/include/Engine/DefaultBitmapHelpers.hpp:155-183 | Decoding and encoding a 16-bit pixel changes nothing |
| `Colours.PixelLayout` | engine/include/Engine/DefaultBitmapHelpers.hpp:169-224 | Where red, green and blue are in pixels of 16 and 32 bits |
| `Colours.PixelColours` | engine/include/Engine/DefaultBitmapHelpers.hpp:155-168 | Each channel of a 16-bit pixel has its own high bits below it |
| `Colours.Color32RoundTrip` | engine/include/Engine/DefaultBitmapHelpers.hpp:196-224 | A colour survives in a 32-bit pixel |
| `Colours.Pixel32RoundTrip` | engine/src/BitmapData.cpp:133-142 | Decoding and encoding a 32-bit pixel equals the block copy exactly if its high byte is zero |
| `PaletteBlit.DistanceFits` | engine/include/Engine/Resource/Palette.hpp:120-124 | Squared distances fit in 32 bits |
| `PaletteBlit.DistanceIs` | engine/include/Engine/Resource/Palette.hpp:120-124 | The distance is the sum of the squares of the differences of the channels |
| `PaletteBlit.FindClosestColorIndex` | engine/include/Engine/Resource/Palette.hpp:108-136 | The search with its early return finds the first of the nearest colours |
| `PaletteBlit.ClosestIsFirstNearest` | engine/include/Engine/Resource/Palette.hpp:96-107 | The index found is the least one at the least distance |
| `PaletteBlit.ExactMatch` | engine/include/Engine/Resource/Palette.hpp:125-127 | A colour of the palette is found where it first stands |
| `PaletteBlit.OwnColour` | engine/src/BitmapData.cpp:121-131 | Searching a palette for its own colour equals copying the index exactly if the colour does not stand earlier |
| `PaletteBlit.Surface8.ReadLineInto` | engine/src/BitmapData.cpp:98-187 | Indices are copied for the same palette and searched for in another |
| `PaletteBlit.Surface8.ReadPixels32` | engine/src/BitmapData.cpp:160-186 | A line as 32-bit pixels, by way of the palette |
| `PaletteBlit.BuildColourMap` | engine/src/Painter_PaintDevice.cpp:63-69 | The map has the nearest target colour for every index of the source, and zero beyond |
| `PaletteBlit.Copy8BitTo8Bit` | engine/src/Painter_PaintDevice.cpp:59-90 | By colour map: every pixel of the rectangle becomes the nearest colour, all other bytes stay |
| `PaletteBlit.CopyBy32Bit` | engine/src/Painter_PaintDevice.cpp:103-133 | By way of 32-bit pixels and a search for each: the same |
| `PaletteBlit.CopyIsUnique` | engine/src/Painter_PaintDevice.cpp:59-133 | Both ways leave the same bytes |
| `PaletteBlit.CopiedPixel` | engine/src/Painter_PaintDevice.cpp:84-88 | Each clipped pixel is the least index of a nearest target colour |
| `PaletteBlit.DrawnBytes` | engine/src/Painter_PaintDevice.cpp:232-262 | Which bytes a drawing changes, with clipping, and for which source byte each of them is the least index of a nearest colour |
| `PaletteBlit.DrawSurface` | engine/src/Painter_PaintDevice.cpp:232-262 | Clips to the target and copies, or does nothing if nothing is left |
| `BmpWriter.Fields` | engine/src/DrawableSurface.cpp:31-53 | The fields of the file say its size modulo 2 to the 32, the offset of the pixels, width, height and depth |
| `BmpWriter.HeaderBytes` | engine/src/DrawableSurface.cpp:17-53 | All 54 bytes of the headers, and the size of the file, from the size, depth and palette of the surface |
| `BmpWriter.ColourBytes` | engine/src/DrawableSurface.cpp:75-91 | The colour table as bytes: blue, green, red and zero, or the greys from black to white |
| `BmpWriter.MasksAreColours` | engine/src/DrawableSurface.cpp:58-73 | The masks are the pixels of pure red, green and blue, and zero |
| `BmpWriter.SizeField` | engine/src/DrawableSurface.cpp:33 | The size field is the size exactly if that is below four gigabytes |
| `BmpWriter.RowInFile` | engine/src/DrawableSurface.cpp:119-129 | Rows go from bottom to top, each at a multiple of four past the stated offset |
| `BmpWriter.PaddingInFile` | engine/src/DrawableSurface.cpp:125-128 | The bytes between rows are zero |
| `BmpWriter.Recoded` | engine/src/BitmapData.cpp:160-186 | A 16-bit pixel taken apart and put together is the same |
| `BmpWriter.ReadLineInto` | engine/src/BitmapData.cpp:98-187 | A whole line comes out as it is stored, also in 16 bits where every pixel is decoded and encoded |
| `BmpWriter.ReadSaved` | engine/src/DrawableSurface.cpp:6-132 | A reader that uses nothing but the fields of the file gets every line back, byte by byte |
| `BmpWriter.ReadSavedColour` | engine/src/DrawableSurface.cpp:75-91 | So does one of the colour table, as many colours as the file says |
| `BmpWriter.ReadSavedMask` | engine/src/DrawableSurface.cpp:55-73 | And one of the masks of 16-bit and 32-bit files |
| `BmpWriter.WriteInfoHeader` | engine/src/DrawableSurface.cpp:38-53 | Writes the 40 bytes of the info header |
| `BmpWriter.WriteRows` | engine/src/DrawableSurface.cpp:119-129 | Writes the padded rows from the bottom up |
| `BmpWriter.SaveToBMP` | engine/src/DrawableSurface.cpp:6-132 | Appends the whole file, or refuses a surface without pixels |
| `GdbHex.UnhexHex` | engine/src/Backend_DOS/gdbstub.h:103-166 | Reading the digits of memory contents gives them back, whatever follows |
| `GdbHex.DigitsAre` | engine/src/Backend_DOS/gdbstub.h:103-111 | Digits are written in lower case and read in either, and exactly those have a value |
| `GdbHex.HexAt` | engine/src/Backend_DOS/gdbstub.h:135-150 | The two digits of each byte, the high one first |
| `GdbHex.MemToHex` | engine/src/Backend_DOS/gdbstub.h:135-150 | Writes the digits and a NUL, or stops without one where memory faults |
| `GdbHex.HexToMem` | engine/src/Backend_DOS/gdbstub.h:152-166 | Stores the bytes of the digits, up to the one where memory faults |
| `GdbHex.RoundTrip` | engine/src/Backend_DOS/gdbstub.h:135-166 | Memory written by one call and read by the other is the same again |
| `GdbPacket.FeedFrame` | engine/src/Backend_DOS/gdbstub.h:347-387 | A whole frame that fits is accepted or refused by its checksum, from the start or in the middle of another |
| `GdbPacket.FrameAnswered` | engine/src/Backend_DOS/gdbstub.h:347-387 | The answer to any frame that fits, byte by byte, with and without acknowledgements, and the buffer after it |
| `GdbPacket.SumAdds` | engine/src/Backend_DOS/gdbstub.h:347-366 | The checksum of two parts is the sum of theirs modulo 256 |
| `GdbPacket.FrameOfOK` | engine/src/Backend_DOS/gdbstub.h:391-409 | The frame of OK is $OK#9a |
| `GdbPacket.FeedAllJunk` | engine/src/Backend_DOS/gdbstub.h:343-388 | Noise, frames cut short, refused frames and frames that fill the buffer are passed over |
| `GdbPacket.AcceptedIfShorter` | engine/src/Backend_DOS/gdbstub.h:347-389 | After any junk a frame is accepted exactly if its payload is shorter than the buffer; one that is not gets no answer, fills the buffer, and the NUL goes to the place behind it |
| `GdbPacket.PacketRead` | engine/src/Backend_DOS/gdbstub.h:336-389 | What comes back of a frame that fits: the payload if the third place holds no colon, the rest of it behind the colon, or what an earlier packet left there; so the payload itself exactly if there is no colon or that is the same string |
| `GdbPacket.StaleColon` | engine/src/Backend_DOS/gdbstub.h:380-384 | A payload of one byte comes back as whatever byte an earlier packet left behind its colon |
| `GdbPacket.MemoryArrives` | engine/src/Backend_DOS/gdbstub.h:135-389 | Memory written as digits, framed and sent after any junk comes out as the same memory |
| `GdbPacket.Stub.WaitForDollar` | engine/src/Backend_DOS/gdbstub.h:344-345 | Skips to the next dollar sign |
| `GdbPacket.Stub.ReadBody` | engine/src/Backend_DOS/gdbstub.h:347-366 | Stores and sums a body, starting over at every dollar sign, until it ends or the buffer is full |
| `GdbPacket.Stub.ReadChecksum` | engine/src/Backend_DOS/gdbstub.h:368-387 | Reads the two digits and compares |
| `GdbPacket.Stub.Answer` | engine/src/Backend_DOS/gdbstub.h:374-386 | Acknowledges or refuses, and skips a sequence number |
| `GdbPacket.Stub.ReadPacket` | engine/src/Backend_DOS/gdbstub.h:336-389 | The loops do what the byte-by-byte reader does with the bytes they use up |
| `GdbPacket.Stub.SendFrame` | engine/src/Backend_DOS/gdbstub.h:397-409 | Sends the string in the buffer as one frame |
| `GdbPacket.Stub.WritePacket` | engine/src/Backend_DOS/gdbstub.h:391-414 | Sends the frame until the first plus sign, or once without acknowledgements |
| `DecimalPrinter.ReadWritten` | engine/include/Engine/Detail/StringFormat.hpp:116-126 | The digits of a number read as the number and do not begin with zero |
| `DecimalPrinter.WrittenIsUnique` | engine/include/Engine/Detail/StringFormat.hpp:116-126 | No other digits without a leading zero read as the number |
| `DecimalPrinter.DigitAt` | engine/include/Engine/Detail/StringFormat.hpp:116-126 | The digit k places from the end is the one with weight 10 to the k |
| `DecimalPrinter.DecimalRoundTrip` | engine/include/Engine/Detail/StringFormat.hpp:94-129 | Printing and reading gives every value back; the sign stands for negative values only |
| `DecimalPrinter.DecimalOfNegative` | engine/include/Engine/Detail/StringFormat.hpp:94-129 | -105 is printed as a minus sign and the digits 1, 0 and 5 |
| `DecimalPrinter.IntVersionAgrees` | engine/include/Engine/Detail/StringFormat.hpp:39-73 | The decision tree for int counts what is printed for every int but the smallest, whose negation leaves the type |
| `DecimalPrinter.NumDigitsLoop` | engine/include/Engine/Detail/StringFormat.hpp:26-37 | The division loop counts what is printed |
| `DecimalPrinter.FillPairs` | engine/include/Engine/Detail/StringFormat.hpp:116-121 | Two digits a turn fill the buffer from its end |
| `DecimalPrinter.FillRest` | engine/include/Engine/Detail/StringFormat.hpp:123-126 | The one or two digits left fill it to its front |
| `DecimalPrinter.Context.PrintPositive` | engine/include/Engine/Detail/StringFormat.hpp:112-128 | Fills exactly as many places as there are digits |
| `DecimalPrinter.Context.Print` | engine/include/Engine/Detail/StringFormat.hpp:94-129 | Every value of every type comes out in decimal, the smallest included, and no step leaves the type |

## Left out

- GifImage.ReadImage: does not model the image descriptor, the palettes or the integer types of the products of width and height; the other GIF extensions are left out with them.
- EllipseRaster.Painter.DrawEllipse: models `long` as unbounded and the doubles under `lrint` as exact quarters; radii beyond the range of either are not covered.
- LineRaster.Painter.DrawLine: models the pen as on or off, without its colour; the copies of the loop in other painters are the same.
- PlanarPainter.PlanarSurface.FillRect: does not model the outline that is drawn with the pen after the fill.
- PlanarPainter.PlanarSurface.ReadLineInto: models targets of 8 bits per pixel, not the conversion to 16.
- PlanarBlit.DrawSurface: models sources in system memory that are not the target itself and contain the source rectangle.
- PngChunks.Process: treats zlib as a predicate on the compressed data seen so far, and the decompressed bytes under `PngFilter` as arbitrary.
- KeyboardRing.Driver.SendKeyboardEvent: lets interrupts arrive before and after each access to the ring, not inside one.
- ResourceManager.Manager.Lazy: makes the block that was asked for, since the constructor call in the source does not match its constructor.
- ResourceHandles.RunKeepsInv: takes each operation as one step, so it does not model a handle that is stored inside the resource it frees, loaders that load the key being loaded, or atomics used from several threads; counts are unbounded.
- PaletteBlit.CopyBy32Bit: requires indices that the source's palette has, since the code aborts on others; 16-bit and 1-bit targets of the same loop are not modelled.
- BmpWriter.SaveToBMP: models 8, 16 and 32 bits in the default formats and a stream that takes all bytes; 1-bit surfaces and write errors are left out.
- GdbPacket.Stub.ReadPacket: models the line as a finite sequence of bytes after which nothing comes, and the byte behind the buffer as part of it.
- DecimalPrinter.Context.Print: appends to a sequence; `std::copy` does not advance the output iterator, which matters only for iterators other than the back inserter in use.
- Streams.Stream.Read: models a device that does not fail.
- Hardware branches of the DOS video code, Mode X, port input and output, mouse, timer and interrupt hooking: foreign hardware.
- SDL, Metal and Cocoa backends, loggers, zlib, Lua bindings, widgets, fonts, the quad tree, world actions: input and output, foreign code, or little to prove.
