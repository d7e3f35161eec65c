/**
 The LZW encoder of GIF89a, Appendix F, with variable code widths and an
 encoder-chosen moment for every clear code. It serves as the reference that
 the decoder must undo.
 */
module GifLzwEncoder {
  import opened Bits
  import opened GifLzwDecoder
  import Wrappers

  /** The first data code from `c` on that stands for `w`; `|t|` if there is none. */
  function CodeOf(m: nat, t: seq<seq<Byte>>, w: seq<Byte>, c: nat := 0): (r: nat)
    requires c <= |t|
    ensures c <= r <= |t|
    ensures r < |t| ==> IsDataCode(m, r) && t[r] == w
    decreases |t| - c
  {
    if c == |t| || (IsDataCode(m, c) && t[c] == w) then c else CodeOf(m, t, w, c + 1)
  }

  lemma {:induction false} CodeOfFinds(m: nat, t: seq<seq<Byte>>, w: seq<Byte>, c: nat, k: nat)
    requires c <= k < |t| && IsDataCode(m, k) && t[k] == w
    ensures CodeOf(m, t, w, c) <= k
    decreases |t| - c
  {
    if c < k {
      CodeOfFinds(m, t, w, c + 1, k);
    }
  }

  predicate Known(m: nat, t: seq<seq<Byte>>, w: seq<Byte>)
  {
    CodeOf(m, t, w) < |t|
  }

  /** The width after a code has gone out: one more bit once the next table slot needs it. */
  function WidthAfterOutput(slots: nat, width: nat): nat
  {
    if slots >= Pow2(width) && width < MAX_CODE_SIZE then width + 1 else width
  }

  /** The encoder's table after a string and the index that did not extend it. */
  ghost function Extended(t: seq<seq<Byte>>, w: seq<Byte>, k: Byte): seq<seq<Byte>>
  {
    if |t| < MAX_DICT_SIZE then t + [w + [k]] else t
  }

  /** A code and the number of bits it is written in. */
  datatype CodeWord = CodeWord(code: nat, width: nat)

  /**
   The rest of an encoding: `w` is the string matched so far, `rest` the
   indices not yet looked at. Besides the string table, the only liberty
   is when to start over with a clear code: here, whenever the number of
   indices left is in `clears`.
   */
  ghost function EncodeFrom(m: nat, t: seq<seq<Byte>>, width: nat, w: seq<Byte>, rest: seq<Byte>, clears: set<nat>)
    : seq<CodeWord>
    requires ValidMinimum(m)
    decreases |rest|
  {
    var out := CodeWord(CodeOf(m, t, w), width);
    var width' := WidthAfterOutput(|t|, width);
    if rest == [] then
      [out, CodeWord(EoiCode(m), width')]
    else if Known(m, t, w + [rest[0]]) then
      EncodeFrom(m, t, width, w + [rest[0]], rest[1..], clears)
    else if |rest| in clears then
      [out, CodeWord(ClearCode(m), width')] + EncodeFrom(m, InitialTable(m), m + 1, [rest[0]], rest[1..], clears)
    else
      [out] + EncodeFrom(m, Extended(t, w, rest[0]), width', [rest[0]], rest[1..], clears)
  }

  /** A whole encoding: a clear code, the codes of `input`, and the end code. */
  ghost function Encode(m: nat, input: seq<Byte>, clears: set<nat>): seq<CodeWord>
    requires ValidMinimum(m)
  {
    [CodeWord(ClearCode(m), m + 1)]
    + if input == [] then [CodeWord(EoiCode(m), m + 1)]
      else EncodeFrom(m, InitialTable(m), m + 1, [input[0]], input[1..], clears)
  }

  /** The code words one after the other, each least significant bit first. */
  ghost function BitsOfCodes(words: seq<CodeWord>): seq<Bit>
  {
    if words == [] then [] else BitsOfNumber(words[0].code, words[0].width) + BitsOfCodes(words[1..])
  }

  ghost predicate Indices(m: nat, s: seq<Byte>)
  {
    forall k: nat :: k < |s| ==> s[k] < ClearCode(m)
  }

  /**
   How the two sides stand to each other between codes. The tables are the
   same right after a clear code and once they are full; otherwise the
   decoder lacks the encoder's newest entry, of which it knows all but the
   last byte. The code widths are always the same.
   */
  ghost predicate Linked(m: nat, t: seq<seq<Byte>>, width: nat, w: seq<Byte>, d: State)
  {
    && Inv(m, d)
    && width == d.codeSize
    && w != []
    && Known(m, t, w)
    && (|| (d.table == t && (d.previousCode == -1 || |t| == MAX_DICT_SIZE))
        || (&& d.previousCode != -1
            && |t| <= MAX_DICT_SIZE
            && t == d.table + [d.table[d.previousCode] + [w[0]]]))
  }

  lemma SingleIndexKnown(m: nat, t: seq<seq<Byte>>, k: Byte)
    requires ValidMinimum(m) && k < ClearCode(m) < |t| && t[k] == [k]
    ensures Known(m, t, [k])
  {
    CodeOfFinds(m, t, [k], 0, k);
  }

  /** Just after a clear code the two sides agree. */
  lemma LinkedAtStart(m: nat, k: Byte)
    requires ValidMinimum(m) && k < ClearCode(m)
    ensures Linked(m, InitialTable(m), m + 1, [k], InitialState(m))
  {
    InitialInv(m);
    SingleIndexKnown(m, InitialTable(m), k);
  }

  /** Every code the encoder can send fits the width the decoder expects. */
  lemma CodeFits(m: nat, t: seq<seq<Byte>>, width: nat, w: seq<Byte>, d: State)
    requires Linked(m, t, width, w, d)
    ensures CodeOf(m, t, w) < Pow2(width)
    ensures EoiCode(m) < Pow2(width)
  {
    Pow2Values();
    assert |t| <= |d.table| + 1;
    if width < MAX_CODE_SIZE {
      assert |d.table| < Pow2(width);
    }
  }

  /**
   Sending the code for `w` brings the decoder's table up to the encoder's
   and gives `w`, also when that code is the one the decoder has yet to make.
   */
  lemma OutputCode(m: nat, t: seq<seq<Byte>>, width: nat, w: seq<Byte>, d: State)
    requires Linked(m, t, width, w, d)
    ensures CodeOf(m, t, w) < Pow2(d.codeSize)
    ensures var turn := TakeTurn(m, d, CodeOf(m, t, w));
            turn.Continue? && turn.output == w
            && turn.next == State(t, WidthAfterOutput(|t|, width), CodeOf(m, t, w))
            && Inv(m, turn.next)
  {
    var c := CodeOf(m, t, w);
    CodeFits(m, t, width, w, d);
    TurnKeepsInv(m, d, c);
    WidthsAgree(m, t, width, w, d);
    if c < |d.table| {
      assert d.table[c] == w;
    } else {
      Entry(m, d.table, d.previousCode);
      assert w[0] == d.table[d.previousCode][0];
    }
  }

  /** The encoder looks at its table before it adds an entry, the decoder after: the widths come out equal. */
  lemma WidthsAgree(m: nat, t: seq<seq<Byte>>, width: nat, w: seq<Byte>, d: State)
    requires Linked(m, t, width, w, d)
    ensures if d.table == t then WidthAfterOutput(|t|, width) == width
            else |d.table| < MAX_DICT_SIZE
                 && WidthAfterOutput(|t|, width)
                    == if |t| == Pow2(width) && width < MAX_CODE_SIZE then width + 1 else width
  {
    if d.table != t {
      assert width < MAX_CODE_SIZE ==> |d.table| < Pow2(width);
    }
  }

  /** The decoder's state after the code for `w`. */
  ghost function AfterCode(m: nat, t: seq<seq<Byte>>, width: nat, w: seq<Byte>): State
  {
    State(t, WidthAfterOutput(|t|, width), CodeOf(m, t, w))
  }

  /** A control code fits the width in use after the code for `w`. */
  lemma ControlCodeFits(m: nat, t: seq<seq<Byte>>, width: nat, w: seq<Byte>, d: State)
    requires Linked(m, t, width, w, d)
    ensures ClearCode(m) < EoiCode(m) < Pow2(WidthAfterOutput(|t|, width))
  {
    CodeFits(m, t, width, w, d);
    Pow2Monotone(width, WidthAfterOutput(|t|, width));
  }

  /** Once the encoder has made its next entry, the decoder is one entry behind again. */
  lemma LinkedAfterCode(m: nat, t: seq<seq<Byte>>, width: nat, w: seq<Byte>, d: State, k: Byte)
    requires Linked(m, t, width, w, d) && k < ClearCode(m)
    ensures Linked(m, Extended(t, w, k), WidthAfterOutput(|t|, width), [k], AfterCode(m, t, width, w))
  {
    OutputCode(m, t, width, w, d);
    Entry(m, t, k);
    SingleIndexKnown(m, Extended(t, w, k), k);
  }

  /**
   What the decoder makes of code words that arrive in the widths it expects.
   It is a failure if a word has another width, or if the words stop before
   the end code.
   */
  ghost function DecodeWords(m: nat, d: State, words: seq<CodeWord>): Wrappers.Result<seq<Byte>, LzwError>
    requires Inv(m, d)
    decreases |words|
  {
    if words == [] || words[0].width != d.codeSize || words[0].code >= Pow2(d.codeSize) then
      Wrappers.Failure(InvalidCode)
    else
      TurnKeepsInv(m, d, words[0].code);
      match TakeTurn(m, d, words[0].code)
      case Stop => Wrappers.Success([])
      case Invalid => Wrappers.Failure(InvalidCode)
      case Continue(out, next) => Prepend(out, DecodeWords(m, next, words[1..]))
  }

  /** The decoder reads a code that is written in its current width. */
  lemma ReadOneCode(m: nat, d: State, code: nat, tail: seq<Bit>)
    requires Inv(m, d) && code < Pow2(d.codeSize)
    ensures var t := TakeTurn(m, d, code);
            var r := DecodeFrom(m, d, BitsOfNumber(code, d.codeSize) + tail);
            && (t.Stop? ==> r == Wrappers.Success([]))
            && (t.Continue? ==> Inv(m, t.next) && r == Prepend(t.output, DecodeFrom(m, t.next, tail)))
  {
    var bits := BitsOfNumber(code, d.codeSize) + tail;
    assert bits[..d.codeSize] == BitsOfNumber(code, d.codeSize);
    assert bits[d.codeSize..] == tail;
    ValueOfBits(code, d.codeSize);
    DecodeTurn(m, d, bits, []);
    PrependNothing(DecodeFrom(m, d, bits));
    var t := TakeTurn(m, d, code);
    if t.Continue? {
      assert [] + t.output == t.output;
    }
  }

  /** If the widths are right, the decoder finds the code words among the bits, whatever follows them. */
  lemma {:induction false} WordsFoundInBits(m: nat, d: State, words: seq<CodeWord>, tail: seq<Bit>)
    requires Inv(m, d) && DecodeWords(m, d, words).Success?
    ensures DecodeFrom(m, d, BitsOfCodes(words) + tail) == DecodeWords(m, d, words)
    decreases |words|
  {
    var first, more := BitsOfNumber(words[0].code, words[0].width), BitsOfCodes(words[1..]);
    assert first + more + tail == first + (more + tail);
    ReadOneCode(m, d, words[0].code, more + tail);
    TurnKeepsInv(m, d, words[0].code);
    var turn := TakeTurn(m, d, words[0].code);
    if turn.Continue? {
      WordsFoundInBits(m, turn.next, words[1..], tail);
    }
  }

  /** A string followed by a clear code, after which both sides start over. */
  lemma SendClear(m: nat, t: seq<seq<Byte>>, width: nat, w: seq<Byte>, d: State, more: seq<CodeWord>)
    requires Linked(m, t, width, w, d)
    requires Inv(m, InitialState(m))
    ensures DecodeWords(m, d, [CodeWord(CodeOf(m, t, w), width),
                               CodeWord(ClearCode(m), WidthAfterOutput(|t|, width))] + more)
         == Prepend(w, DecodeWords(m, InitialState(m), more))
  {
    var clear := CodeWord(ClearCode(m), WidthAfterOutput(|t|, width));
    ControlCodeFits(m, t, width, w, d);
    SendCode(m, t, width, w, d, [clear] + more);
    assert ([clear] + more)[1..] == more;
    PrependNothing(DecodeWords(m, InitialState(m), more));
    assert [CodeWord(CodeOf(m, t, w), width), clear] + more == [CodeWord(CodeOf(m, t, w), width)] + ([clear] + more);
  }

  /** A string followed by more codes. */
  lemma SendCode(m: nat, t: seq<seq<Byte>>, width: nat, w: seq<Byte>, d: State, more: seq<CodeWord>)
    requires Linked(m, t, width, w, d)
    ensures Inv(m, AfterCode(m, t, width, w))
    ensures DecodeWords(m, d, [CodeWord(CodeOf(m, t, w), width)] + more)
         == Prepend(w, DecodeWords(m, AfterCode(m, t, width, w), more))
  {
    OutputCode(m, t, width, w, d);
    assert ([CodeWord(CodeOf(m, t, w), width)] + more)[1..] == more;
  }

  /** From state `d`, the decoder takes all the code words in their widths and puts out `out`. */
  ghost predicate Delivers(m: nat, d: State, words: seq<CodeWord>, out: seq<Byte>)
  {
    Inv(m, d) && DecodeWords(m, d, words) == Wrappers.Success(out)
  }

  lemma DeliverEnd(m: nat, t: seq<seq<Byte>>, width: nat, w: seq<Byte>, d: State, clears: set<nat>)
    requires Linked(m, t, width, w, d)
    ensures Delivers(m, d, EncodeFrom(m, t, width, w, [], clears), w + [])
  {
    var end := CodeWord(EoiCode(m), WidthAfterOutput(|t|, width));
    ControlCodeFits(m, t, width, w, d);
    SendCode(m, t, width, w, d, [end]);
    assert [CodeWord(CodeOf(m, t, w), width)] + [end] == EncodeFrom(m, t, width, w, [], clears);
  }

  lemma DeliverAfterClear(m: nat, t: seq<seq<Byte>>, width: nat, w: seq<Byte>, rest: seq<Byte>, clears: set<nat>, d: State)
    requires Linked(m, t, width, w, d)
    requires rest != [] && !Known(m, t, w + [rest[0]]) && |rest| in clears
    requires Delivers(m, InitialState(m), EncodeFrom(m, InitialTable(m), m + 1, [rest[0]], rest[1..], clears), rest)
    ensures Delivers(m, d, EncodeFrom(m, t, width, w, rest, clears), w + rest)
  {
    SendClear(m, t, width, w, d, EncodeFrom(m, InitialTable(m), m + 1, [rest[0]], rest[1..], clears));
  }

  lemma DeliverAfterCode(m: nat, t: seq<seq<Byte>>, width: nat, w: seq<Byte>, rest: seq<Byte>, clears: set<nat>, d: State)
    requires Linked(m, t, width, w, d)
    requires rest != [] && !Known(m, t, w + [rest[0]]) && |rest| !in clears
    requires Delivers(m, AfterCode(m, t, width, w),
                      EncodeFrom(m, Extended(t, w, rest[0]), WidthAfterOutput(|t|, width), [rest[0]], rest[1..], clears),
                      rest)
    ensures Delivers(m, d, EncodeFrom(m, t, width, w, rest, clears), w + rest)
  {
    SendCode(m, t, width, w, d,
             EncodeFrom(m, Extended(t, w, rest[0]), WidthAfterOutput(|t|, width), [rest[0]], rest[1..], clears));
  }

  /** The decoder undoes what is left of an encoding, and expects every width that the encoder uses. */
  lemma {:induction false} DecodeEncodeFrom(m: nat, t: seq<seq<Byte>>, width: nat, w: seq<Byte>, rest: seq<Byte>,
                                            clears: set<nat>, d: State)
    requires Linked(m, t, width, w, d) && Indices(m, rest)
    ensures Delivers(m, d, EncodeFrom(m, t, width, w, rest, clears), w + rest)
    decreases |rest|
  {
    if rest == [] {
      DeliverEnd(m, t, width, w, d, clears);
      return;
    }
    var k, rest' := rest[0], rest[1..];
    assert rest == [k] + rest';
    if Known(m, t, w + [k]) {
      DecodeEncodeFrom(m, t, width, w + [k], rest', clears, d);
      assert w + [k] + rest' == w + rest;
    } else if |rest| in clears {
      LinkedAtStart(m, k);
      DecodeEncodeFrom(m, InitialTable(m), m + 1, [k], rest', clears, InitialState(m));
      DeliverAfterClear(m, t, width, w, rest, clears, d);
    } else {
      LinkedAfterCode(m, t, width, w, d, k);
      DecodeEncodeFrom(m, Extended(t, w, k), WidthAfterOutput(|t|, width), [k], rest', clears, AfterCode(m, t, width, w));
      DeliverAfterCode(m, t, width, w, rest, clears, d);
    }
  }

  /** The clear code at the start changes nothing. */
  lemma StartWithClear(m: nat, words: seq<CodeWord>)
    requires ValidMinimum(m) && Inv(m, InitialState(m))
    ensures DecodeWords(m, InitialState(m), [CodeWord(ClearCode(m), m + 1)] + words)
         == DecodeWords(m, InitialState(m), words)
  {
    InitialCodeSize(m);
    PrependNothing(DecodeWords(m, InitialState(m), words));
    assert ([CodeWord(ClearCode(m), m + 1)] + words)[1..] == words;
  }

  /** The code words of a whole encoding decode to its input. */
  lemma DecodeWordsOfEncoding(m: nat, input: seq<Byte>, clears: set<nat>)
    requires ValidMinimum(m) && Indices(m, input) && Inv(m, InitialState(m))
    ensures DecodeWords(m, InitialState(m), Encode(m, input, clears)) == Wrappers.Success(input)
  {
    if input == [] {
      InitialCodeSize(m);
      StartWithClear(m, [CodeWord(EoiCode(m), m + 1)]);
    } else {
      LinkedAtStart(m, input[0]);
      DecodeEncodeFrom(m, InitialTable(m), m + 1, [input[0]], input[1..], clears, InitialState(m));
      StartWithClear(m, EncodeFrom(m, InitialTable(m), m + 1, [input[0]], input[1..], clears));
      assert [input[0]] + input[1..] == input;
    }
  }

  /**
   Round trip. For every minimum code size, every sequence of colour indices
   and every choice of clear codes, the decoder turns the packed encoding,
   with any bytes after it, back into that sequence.
   */
  lemma DecodeEncode(m: nat, input: seq<Byte>, clears: set<nat>, trailer: seq<Byte>)
    requires ValidMinimum(m) && Indices(m, input)
    ensures Decode(m, Pack(BitsOfCodes(Encode(m, input, clears))) + trailer) == Wrappers.Success(input)
  {
    InitialInv(m);
    DecodeWordsOfEncoding(m, input, clears);
    var tail := PackedFirst(BitsOfCodes(Encode(m, input, clears)), trailer);
    WordsFoundInBits(m, InitialState(m), Encode(m, input, clears), tail);
  }

  // ----- Data that stop before the end code

  /** The last code word of an encoding is the only end code. */
  ghost predicate OnlyLastEnds(m: nat, words: seq<CodeWord>)
  {
    && words != [] && words[|words| - 1].code == EoiCode(m)
    && forall i :: 0 <= i < |words| - 1 ==> words[i].code != EoiCode(m)
  }

  lemma CodeIsNoEnd(m: nat, t: seq<seq<Byte>>, w: seq<Byte>)
    requires |t| > EoiCode(m)
    ensures CodeOf(m, t, w) != EoiCode(m)
  {
  }

  lemma {:induction false} EncodingEndsOnce(m: nat, t: seq<seq<Byte>>, width: nat, w: seq<Byte>, rest: seq<Byte>,
                                            clears: set<nat>)
    requires ValidMinimum(m) && |t| > EoiCode(m)
    ensures OnlyLastEnds(m, EncodeFrom(m, t, width, w, rest, clears))
    decreases |rest|
  {
    CodeIsNoEnd(m, t, w);
    if rest != [] {
      if Known(m, t, w + [rest[0]]) {
        EncodingEndsOnce(m, t, width, w + [rest[0]], rest[1..], clears);
      } else if |rest| in clears {
        EncodingEndsOnce(m, InitialTable(m), m + 1, [rest[0]], rest[1..], clears);
      } else {
        EncodingEndsOnce(m, Extended(t, w, rest[0]), WidthAfterOutput(|t|, width), [rest[0]], rest[1..], clears);
      }
    }
  }

  lemma EncodeEndsOnce(m: nat, input: seq<Byte>, clears: set<nat>)
    requires ValidMinimum(m)
    ensures OnlyLastEnds(m, Encode(m, input, clears))
  {
    if input != [] {
      EncodingEndsOnce(m, InitialTable(m), m + 1, [input[0]], input[1..], clears);
    }
  }

  lemma ButLast(words: seq<CodeWord>, tail: seq<Bit>)
    requires |words| > 1
    ensures BitsOfCodes(words[..|words| - 1]) + tail
         == BitsOfNumber(words[0].code, words[0].width) + (BitsOfCodes(words[1..][..|words| - 2]) + tail)
  {
    assert words[..|words| - 1][1..] == words[1..][..|words| - 2];
    var first, more := BitsOfNumber(words[0].code, words[0].width), BitsOfCodes(words[1..][..|words| - 2]);
    assert first + more + tail == first + (more + tail);
  }

  /** Without the end code the decoder puts out the same. Fewer bits than a code has may follow. */
  lemma {:induction false} WithoutEnd(m: nat, d: State, words: seq<CodeWord>, tail: seq<Bit>)
    requires Inv(m, d) && DecodeWords(m, d, words).Success? && OnlyLastEnds(m, words)
    requires |tail| < words[|words| - 1].width
    ensures DecodeFrom(m, d, BitsOfCodes(words[..|words| - 1]) + tail) == DecodeWords(m, d, words)
    decreases |words|
  {
    TurnKeepsInv(m, d, words[0].code);
    if |words| > 1 {
      var more := BitsOfCodes(words[1..][..|words| - 2]);
      ButLast(words, tail);
      ReadOneCode(m, d, words[0].code, more + tail);
      WithoutEnd(m, TakeTurn(m, d, words[0].code).next, words[1..], tail);
    }
  }

  /**
   The indices that have been sent come out even if the data stop before the
   end code, or within it.
   */
  lemma DecodeWithoutEnd(m: nat, input: seq<Byte>, clears: set<nat>, tail: seq<Bit>)
    requires ValidMinimum(m) && Indices(m, input)
    requires var words := Encode(m, input, clears); |tail| < words[|words| - 1].width
    ensures Inv(m, InitialState(m))
    ensures var words := Encode(m, input, clears);
      DecodeFrom(m, InitialState(m), BitsOfCodes(words[..|words| - 1]) + tail) == Wrappers.Success(input)
  {
    InitialInv(m);
    DecodeWordsOfEncoding(m, input, clears);
    EncodeEndsOnce(m, input, clears);
    WithoutEnd(m, InitialState(m), Encode(m, input, clears), tail);
  }

  // ----- Files

  /** The encoding of a single colour index of the four of the narrowest data. */
  lemma WordsOfOnePixel(k: Byte, clears: set<nat>)
    requires k < 2
    ensures Encode(2, [k], clears) == [CodeWord(4, 3), CodeWord(k, 3), CodeWord(5, 3)]
  {
    Pow2Values();
    var t := InitialTable(2);
    assert t[0] == [0] && t[1] == [1] && IsDataCode(2, 0) && IsDataCode(2, 1);
    assert CodeOf(2, t, [k], 1) == 1 || k == 0;
    assert CodeOf(2, t, [k]) == k;
    assert EncodeFrom(2, t, 3, [k], [], clears) == [CodeWord(k, 3), CodeWord(5, 3)];
  }

  lemma BitsOfFirst(a: nat, words: seq<CodeWord>)
    ensures BitsOfCodes([CodeWord(a, 3)] + words) == BitsOfNumber(a, 3) + BitsOfCodes(words)
  {
    assert ([CodeWord(a, 3)] + words)[1..] == words;
  }

  lemma BitsOfTwoWords(a: nat, b: nat)
    ensures BitsOfCodes([CodeWord(a, 3), CodeWord(b, 3)]) == BitsOfNumber(a, 3) + BitsOfNumber(b, 3)
  {
    BitsOfFirst(b, []);
    BitsOfFirst(a, [CodeWord(b, 3)]);
    assert [CodeWord(a, 3), CodeWord(b, 3)] == [CodeWord(a, 3)] + [CodeWord(b, 3)];
    assert [CodeWord(b, 3)] == [CodeWord(b, 3)] + [];
    assert BitsOfNumber(b, 3) + [] == BitsOfNumber(b, 3);
  }

  lemma BitsOfThreeWords(a: nat, b: nat, c: nat)
    ensures BitsOfCodes([CodeWord(a, 3), CodeWord(b, 3), CodeWord(c, 3)])
         == BitsOfNumber(a, 3) + (BitsOfNumber(b, 3) + BitsOfNumber(c, 3))
  {
    BitsOfTwoWords(b, c);
    BitsOfFirst(a, [CodeWord(b, 3), CodeWord(c, 3)]);
    assert [CodeWord(a, 3), CodeWord(b, 3), CodeWord(c, 3)] == [CodeWord(a, 3)] + [CodeWord(b, 3), CodeWord(c, 3)];
  }

  lemma BitsOfByte(a: Byte, more: seq<Byte>)
    ensures BitsOf([a] + more) == BitsOfNumber(a, 8) + BitsOf(more)
  {
    assert ([a] + more)[1..] == more;
  }

  lemma SomeCodes()
    ensures BitsOfNumber(4, 3) == [0, 0, 1] && BitsOfNumber(5, 3) == [1, 0, 1]
    ensures BitsOfNumber(0, 3) == [0, 0, 0] && BitsOfNumber(1, 3) == [1, 0, 0]
  {
  }

  lemma FirstByte()
    ensures BitsOfNumber(0x44, 8) == [0, 0, 1, 0, 0, 0, 1, 0]
  {
  }

  lemma SecondByte()
    ensures BitsOfNumber(0x01, 8) == [1, 0, 0, 0, 0, 0, 0, 0]
  {
  }

  lemma LoneByte()
    ensures BitsOfNumber(0x0C, 8) == [0, 0, 1, 1, 0, 0, 0, 0]
  {
  }

  lemma SameNineBits(first: seq<Bit>, second: seq<Bit>, a: seq<Bit>, b: seq<Bit>, c: seq<Bit>, fill: seq<Bit>)
    requires first == [0, 0, 1, 0, 0, 0, 1, 0] && second == [1] + fill
    requires a == [0, 0, 1] && b == [0, 0, 0] && c == [1, 0, 1]
    ensures first + second == a + (b + c) + fill
  {
    assert a + (b + c) == first + [1];
  }

  /** Nine bits of three code words, and seven to fill up. */
  lemma FirstColourBits()
    ensures BitsOf([0x44, 0x01])
         == BitsOfCodes([CodeWord(4, 3), CodeWord(0, 3), CodeWord(5, 3)]) + [0, 0, 0, 0, 0, 0, 0]
  {
    BitsOfByte(0x01, []);
    BitsOfByte(0x44, [0x01]);
    assert [0x44, 0x01] == [0x44] + [0x01] && [0x01] == [0x01] + [];
    BitsOfThreeWords(4, 0, 5);
    FirstByte();
    SecondByte();
    SomeCodes();
    assert BitsOfNumber(0x01, 8) + [] == BitsOfNumber(0x01, 8) == [1] + [0, 0, 0, 0, 0, 0, 0];
    SameNineBits(BitsOfNumber(0x44, 8), BitsOfNumber(0x01, 8), BitsOfNumber(4, 3), BitsOfNumber(0, 3), BitsOfNumber(5, 3),
                 [0, 0, 0, 0, 0, 0, 0]);
  }

  /** Six bits of two code words, and two of a third. */
  lemma SecondColourBits()
    ensures BitsOf([0x0C]) == BitsOfCodes([CodeWord(4, 3), CodeWord(1, 3)]) + [0, 0]
  {
    BitsOfByte(0x0C, []);
    assert [0x0C] == [0x0C] + [];
    BitsOfTwoWords(4, 1);
    LoneByte();
    SomeCodes();
  }

  /** The data of a file of one pixel of the first colour; one pixel of the second colour without an end code. */
  lemma OnePixel()
    ensures Decode(2, [0x44, 0x01]) == Wrappers.Success([0])
    ensures Decode(2, [0x0C]) == Wrappers.Success([1])
  {
    var none: set<nat> := {};
    InitialInv(2);
    Pow2Values();
    FirstColourBits();
    WordsOfOnePixel(0, none);
    DecodeWordsOfEncoding(2, [0], none);
    WordsFoundInBits(2, InitialState(2), Encode(2, [0], none), [0, 0, 0, 0, 0, 0, 0]);
    SecondColourBits();
    WordsOfOnePixel(1, none);
    assert Encode(2, [1], none)[..2] == [CodeWord(4, 3), CodeWord(1, 3)];
    DecodeWithoutEnd(2, [1], none, [0, 0]);
  }
}
