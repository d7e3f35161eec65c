/**
 The GIF image data decoder: the bit reader, the LZW dictionary machine and
 the loop that drives them.
 */
module GifLzwDecoder {
  import opened Wrappers
  import opened Bits

  const MAX_CODE_SIZE: nat := 12
  const MAX_DICT_SIZE: nat := 4096

  datatype LzwError = InvalidMinimumCodeSize | InvalidCode

  /** Taking in one more bit adds its weight to the number read so far. */
  lemma OneBitMore(bits: seq<Bit>, i: nat)
    requires i < |bits|
    ensures Value(bits[..i + 1]) == Value(bits[..i]) + ShiftLeft(bits[i], i)
  {
    assert bits[..i + 1] == bits[..i] + [bits[i]];
    ValueAppend(bits[..i], bits[i]);
  }

  /** Reads numbers of any width from a byte vector, least significant bit first. */
  class BitStreamReader {
    const data: seq<Byte>
    var bytePos: nat
    var bitPos: nat

    ghost predicate Valid()
      reads this
    {
      && bytePos <= |data|
      && bitPos < 8
      && (bytePos == |data| ==> bitPos == 0)
    }

    /** The bits not yet read. */
    ghost function Remaining(): (r: seq<Bit>)
      reads this
      requires Valid()
    {
      BitsOf(data)[8 * bytePos + bitPos..]
    }

    constructor (data: seq<Byte>)
      ensures Valid() && Remaining() == BitsOf(data)
    {
      this.data := data;
      bytePos := 0;
      bitPos := 0;
    }

    /** The bit at the read position, if there is one. */
    method ReadBit() returns (bit: Option<Bit>)
      requires Valid()
      modifies this
      ensures Valid()
      ensures if old(Remaining()) == [] then bit == None && Remaining() == []
              else bit == Some(old(Remaining())[0]) && Remaining() == old(Remaining())[1..]
    {
      if bytePos >= |data| {
        return None;
      }
      BitsOfAt(data, bytePos, bitPos);
      bit := Some(NthBit(data[bytePos], bitPos));
      bitPos := bitPos + 1;
      if bitPos >= 8 {
        bitPos := 0;
        bytePos := bytePos + 1;
      }
    }

    /** `None` stands for the exception thrown at the end of the data. */
    method ReadBits(numBits: nat) returns (r: Option<nat>)
      requires Valid() && numBits <= 16
      modifies this
      ensures Valid()
      ensures if numBits <= |old(Remaining())|
              then r == Some(Value(old(Remaining())[..numBits])) && Remaining() == old(Remaining())[numBits..]
              else r == None && Remaining() == []
    {
      var value := 0;
      ghost var bits := Remaining();
      for i := 0 to numBits
        invariant Valid() && i <= |bits|
        invariant Remaining() == bits[i..] && value == Value(bits[..i])
      {
        var bit := ReadBit();
        if bit.None? {
          return None;
        }
        OneBitMore(bits, i);
        value := value + ShiftLeft(bit.value, i);
      }
      return Some(value);
    }

    method EndOfStream() returns (r: bool)
      requires Valid()
      ensures r == (Remaining() == [])
    {
      r := bytePos >= |data|;
    }
  }

  function ClearCode(m: nat): nat { Pow2(m) }

  function EoiCode(m: nat): nat { ClearCode(m) + 1 }

  predicate ValidMinimum(m: nat) { 2 <= m <= 8 }

  /** `w` is the number of binary digits of `n`, or the longest code width if that is less. */
  predicate WidthFor(n: nat, w: nat)
  {
    0 < w <= MAX_CODE_SIZE && Pow2(w - 1) <= n && (n < Pow2(w) || w == MAX_CODE_SIZE)
  }

  /** One string for each code below the next free one; the two control codes hold a placeholder. */
  function InitialTable(m: nat): (t: seq<seq<Byte>>)
    requires ValidMinimum(m)
    ensures |t| == ClearCode(m) + 2
  {
    assert ClearCode(m) <= 256 by { Pow2Values(); }
    seq(ClearCode(m), i requires 0 <= i < 256 => [i]) + [[0], [0]]
  }

  /** The state between two codes; the next free code is `|table|`, and no previous code is -1. */
  datatype State = State(table: seq<seq<Byte>>, codeSize: nat, previousCode: int)

  function InitialState(m: nat): State
    requires ValidMinimum(m)
  {
    State(InitialTable(m), m + 1, -1)
  }

  predicate IsDataCode(m: nat, c: int)
  {
    0 <= c && c != ClearCode(m) && c != EoiCode(m)
  }

  /** Entry `c` is an older data entry plus one colour index, and not longer than its age allows. */
  ghost predicate ExtendsOlderEntry(m: nat, t: seq<seq<Byte>>, c: nat)
    requires c < |t|
  {
    && 0 < |t[c]| <= c - ClearCode(m)
    && t[c][|t[c]| - 1] < ClearCode(m)
    && exists q: nat :: q < c && IsDataCode(m, q) && t[q] == t[c][..|t[c]| - 1]
  }

  /** The initial table, or a valid table and one entry made from it. */
  ghost predicate ValidTable(m: nat, t: seq<seq<Byte>>)
    requires ValidMinimum(m)
  {
    && ClearCode(m) + 2 <= |t|
    && if |t| == ClearCode(m) + 2 then t == InitialTable(m)
       else ValidTable(m, t[..|t| - 1]) && ExtendsOlderEntry(m, t, |t| - 1)
  }

  /** What holds between any two codes of any input, well formed or not. */
  ghost predicate Inv(m: nat, s: State)
  {
    && ValidMinimum(m)
    && ValidTable(m, s.table) && |s.table| <= MAX_DICT_SIZE
    && WidthFor(|s.table|, s.codeSize)
    && (if s.previousCode == -1 then s.table == InitialTable(m)
        else IsDataCode(m, s.previousCode) && s.previousCode < |s.table|)
  }

  lemma InitialInv(m: nat)
    requires ValidMinimum(m)
    ensures Inv(m, InitialState(m))
  {
    InitialCodeSize(m);
  }

  lemma InitialCodeSize(m: nat)
    requires ValidMinimum(m)
    ensures 4 <= ClearCode(m) <= 256
    ensures WidthFor(ClearCode(m) + 2, m + 1)
  {
    Pow2Monotone(2, m);
    Pow2Monotone(m, 8);
    Pow2Values();
  }

  /**
   Every code of a valid table: the codes up to the end code never change,
   later ones extend an older entry, and all stand for non-empty strings of
   colour indices below the clear code.
   */
  lemma {:induction false} Entry(m: nat, t: seq<seq<Byte>>, c: nat)
    requires ValidMinimum(m) && ValidTable(m, t) && c < |t|
    ensures if c < ClearCode(m) + 2 then t[c] == InitialTable(m)[c] else ExtendsOlderEntry(m, t, c)
    ensures 0 < |t[c]| <= 1 + c
    ensures |t[c]| == 1 || |t[c]| <= c - ClearCode(m)
    ensures forall k: nat :: k < |t[c]| ==> t[c][k] < ClearCode(m)
    decreases |t|, c
  {
    if |t| == ClearCode(m) + 2 {
      Pow2Monotone(0, m);
    } else if c < |t| - 1 {
      Entry(m, t[..|t| - 1], c);
      if c >= ClearCode(m) + 2 {
        var q: nat :| q < c && IsDataCode(m, q) && t[..|t| - 1][q] == t[c][..|t[c]| - 1];
        assert t[q] == t[c][..|t[c]| - 1];
      }
    } else {
      var q: nat :| q < c && IsDataCode(m, q) && t[q] == t[c][..|t[c]| - 1];
      Entry(m, t[..|t| - 1], q);
    }
  }

  /** A code of the current width is below the size limit of the dictionary. */
  lemma CodeInRange(m: nat, s: State, code: nat)
    requires Inv(m, s) && code < Pow2(s.codeSize)
    ensures code < MAX_DICT_SIZE
  {
    Pow2Values();
    Pow2Monotone(s.codeSize, MAX_CODE_SIZE);
  }

  /** How many binary digits `n` has. */
  function BitLength(n: nat): nat
  {
    if n == 0 then 0 else 1 + BitLength(n / 2)
  }

  lemma {:induction false} BitLengthIs(n: nat, w: nat)
    requires w > 0 && Pow2(w - 1) <= n < Pow2(w)
    ensures BitLength(n) == w
  {
    if w > 1 {
      BitLengthIs(n / 2, w - 1);
    }
  }

  /** In every state that can be reached, the code width is the bit length of the next code, capped at 12. */
  lemma CodeSizeIsBitLength(m: nat, s: State)
    requires Inv(m, s)
    ensures s.codeSize == (if BitLength(|s.table|) < 12 then BitLength(|s.table|) else 12) && |s.table| <= 4096
  {
    if |s.table| < Pow2(s.codeSize) {
      BitLengthIs(|s.table|, s.codeSize);
    } else {
      Pow2Values();
      assert |s.table| == MAX_DICT_SIZE;
      BitLengthIs(MAX_DICT_SIZE, 13);
    }
  }

  /** What one turn of the decoding loop does with a code. */
  datatype Turn = Stop | Invalid | Continue(output: seq<Byte>, next: State)

  /** Adds an entry to the dictionary and widens the codes when they have become too short. */
  function AddEntry(s: State, entry: seq<Byte>, previousCode: int): State
  {
    var table := s.table + [entry];
    var codeSize := if |table| == Pow2(s.codeSize) && s.codeSize < MAX_CODE_SIZE then s.codeSize + 1 else s.codeSize;
    State(table, codeSize, previousCode)
  }

  function TakeTurn(m: nat, s: State, code: nat): Turn
    requires Inv(m, s)
  {
    if code == ClearCode(m) then Continue([], InitialState(m))
    else if code == EoiCode(m) then Stop
    else if code < |s.table| && s.table[code] != [] then
      var entry := s.table[code];
      Continue(entry,
               if s.previousCode != -1 && |s.table| < MAX_DICT_SIZE
               then AddEntry(s, s.table[s.previousCode] + [entry[0]], code)
               else s.(previousCode := code))
    else if code == |s.table| && s.previousCode != -1 then
      Entry(m, s.table, s.previousCode);
      var entry := s.table[s.previousCode] + [s.table[s.previousCode][0]];
      Continue(entry,
               if |s.table| < MAX_DICT_SIZE then AddEntry(s, entry, code) else s.(previousCode := code))
    else Invalid
  }

  /** Appending an extended older entry keeps the dictionary well formed. */
  lemma AddEntryInv(m: nat, s: State, b: Byte, code: nat)
    requires Inv(m, s) && s.previousCode != -1 && |s.table| < MAX_DICT_SIZE
    requires b < ClearCode(m) && IsDataCode(m, code) && code <= |s.table|
    ensures Inv(m, AddEntry(s, s.table[s.previousCode] + [b], code))
  {
    var q := s.previousCode;
    var t := s.table;
    var t' := t + [t[q] + [b]];
    Entry(m, t, q);
    TableExtended(m, t, t', q, b);
    WiderCode(|t|, s.codeSize);
  }

  lemma TableExtended(m: nat, t: seq<seq<Byte>>, t': seq<seq<Byte>>, q: nat, b: Byte)
    requires ValidMinimum(m) && ValidTable(m, t) && IsDataCode(m, q) && q < |t| && t[q] != []
    requires |t[q]| < |t| - ClearCode(m) && b < ClearCode(m) && t' == t + [t[q] + [b]]
    ensures ValidTable(m, t')
  {
    assert t'[..|t'| - 1] == t;
    EntryExtends(m, t', q);
  }

  lemma EntryExtends(m: nat, t: seq<seq<Byte>>, q: nat)
    requires t != [] && q < |t| - 1 && IsDataCode(m, q) && t[q] != []
    requires var e := t[|t| - 1]; |e| == |t[q]| + 1 <= |t| - 1 - ClearCode(m) && e[..|t[q]|] == t[q] && e[|t[q]|] < ClearCode(m)
    ensures ExtendsOlderEntry(m, t, |t| - 1)
  {
  }

  lemma WiderCode(n: nat, codeSize: nat)
    requires n < MAX_DICT_SIZE && WidthFor(n, codeSize)
    ensures WidthFor(n + 1, if n + 1 == Pow2(codeSize) && codeSize < MAX_CODE_SIZE then codeSize + 1 else codeSize)
  {
  }

  /** On any code at all, a turn keeps the invariant and emits only colour indices below the clear code. */
  lemma TurnKeepsInv(m: nat, s: State, code: nat)
    requires Inv(m, s) && code < Pow2(s.codeSize)
    ensures var t := TakeTurn(m, s, code);
            t.Continue? ==>
              && Inv(m, t.next)
              && (forall k: nat :: k < |t.output| ==> t.output[k] < ClearCode(m))
              && (t.output != [] <==> code != ClearCode(m))
  {
    var t := TakeTurn(m, s, code);
    CodeInRange(m, s, code);
    if code == ClearCode(m) {
      InitialInv(m);
    } else if t.Continue? {
      if code < |s.table| {
        Entry(m, s.table, code);
        if s.previousCode != -1 && |s.table| < MAX_DICT_SIZE {
          AddEntryInv(m, s, s.table[code][0], code);
        }
      } else {
        Entry(m, s.table, s.previousCode);
        AddEntryInv(m, s, s.table[s.previousCode][0], code);
      }
    }
  }

  /** Puts bytes that were decoded earlier in front of a result. */
  function Prepend(out: seq<Byte>, r: Result<seq<Byte>, LzwError>): Result<seq<Byte>, LzwError>
  {
    if r.Success? then Success(out + r.value) else r
  }

  lemma PrependTwice(a: seq<Byte>, b: seq<Byte>, r: Result<seq<Byte>, LzwError>)
    ensures Prepend(a, Prepend(b, r)) == Prepend(a + b, r)
  {
    if r.Success? {
      assert a + (b + r.value) == a + b + r.value;
    }
  }

  lemma PrependNothing(r: Result<seq<Byte>, LzwError>)
    ensures Prepend([], r) == r
  {
    if r.Success? {
      assert [] + r.value == r.value;
    }
  }

  /** The whole loop, as a function of the bits still to read. Every turn that goes on uses up a code's width. */
  ghost function DecodeFrom(m: nat, s: State, bits: seq<Bit>): (r: Result<seq<Byte>, LzwError>)
    requires Inv(m, s)
    ensures r.Success? ==> forall k: nat :: k < |r.value| ==> r.value[k] < ClearCode(m)
    decreases |bits|
  {
    if |bits| == 0 || |bits| < s.codeSize then Success([])
    else
      var code := Value(bits[..s.codeSize]);
      TurnKeepsInv(m, s, code);
      match TakeTurn(m, s, code)
      case Stop => Success([])
      case Invalid => Failure(InvalidCode)
      case Continue(out, next) =>
        assert s.codeSize > 0;
        Prepend(out, DecodeFrom(m, next, bits[s.codeSize..]))
  }

  /** One loop turn: what the bytes decoded so far and the rest of the run make up. */
  lemma DecodeTurn(m: nat, s: State, bits: seq<Bit>, output: seq<Byte>)
    requires Inv(m, s) && 0 < |bits| && s.codeSize <= |bits|
    ensures s.codeSize > 0
    ensures Value(bits[..s.codeSize]) < Pow2(s.codeSize)
    ensures Value(bits[..s.codeSize]) < MAX_DICT_SIZE
    ensures var t := TakeTurn(m, s, Value(bits[..s.codeSize]));
            && (t.Stop? ==> Prepend(output, DecodeFrom(m, s, bits)) == Success(output))
            && (t.Invalid? ==> Prepend(output, DecodeFrom(m, s, bits)) == Failure(InvalidCode))
            && (t.Continue? ==>
                  && Inv(m, t.next)
                  && Prepend(output, DecodeFrom(m, s, bits))
                     == Prepend(output + t.output, DecodeFrom(m, t.next, bits[s.codeSize..])))
  {
    var code := Value(bits[..s.codeSize]);
    CodeInRange(m, s, code);
    TurnKeepsInv(m, s, code);
    var t := TakeTurn(m, s, code);
    assert output + [] == output;
    if t.Continue? {
      PrependTwice(output, t.output, DecodeFrom(m, t.next, bits[s.codeSize..]));
    }
  }

  /** What `LZWDecompress` returns for a byte vector. */
  ghost function Decode(m: nat, data: seq<Byte>): Result<seq<Byte>, LzwError>
  {
    if !ValidMinimum(m) then Failure(InvalidMinimumCodeSize)
    else
      InitialInv(m);
      DecodeFrom(m, InitialState(m), BitsOf(data))
  }

  /** Exactly the minimum code sizes from two to eight are accepted. */
  lemma MinimumRefused(m: nat, data: seq<Byte>)
    ensures Decode(m, data) == Failure(InvalidMinimumCodeSize) <==> m < 2 || m > 8
  {
    if 2 <= m <= 8 {
      InitialInv(m);
      OnlyInvalidCodes(m, InitialState(m), BitsOf(data));
    }
  }

  lemma {:induction false} OnlyInvalidCodes(m: nat, s: State, bits: seq<Bit>)
    requires Inv(m, s)
    ensures DecodeFrom(m, s, bits) != Failure(InvalidMinimumCodeSize)
    decreases |bits|
  {
    if |bits| > 0 && s.codeSize <= |bits| {
      DecodeTurn(m, s, bits, []);
      var t := TakeTurn(m, s, Value(bits[..s.codeSize]));
      if t.Continue? {
        OnlyInvalidCodes(m, t.next, bits[s.codeSize..]);
      }
    }
  }

  /** Exactly a code above the next free one is an error, and that one itself just after a clear code. */
  lemma RefusedCodes(m: nat, s: State, code: nat)
    requires Inv(m, s)
    ensures TakeTurn(m, s, code).Invalid? <==> code > |s.table| || (code == |s.table| && s.previousCode == -1)
    ensures TakeTurn(m, s, code).Stop? <==> code == Pow2(m) + 1
  {
    if code < |s.table| {
      Entry(m, s.table, code);
    }
  }

  /** Every data code but the first after a clear code makes an entry, until there are 4096. */
  lemma TableGrows(m: nat, s: State, code: nat)
    requires Inv(m, s) && TakeTurn(m, s, code).Continue?
    ensures var next := TakeTurn(m, s, code).next;
      if code == Pow2(m) then next == State(InitialTable(m), m + 1, -1)
      else
        && s.table <= next.table && next.previousCode == code
        && |next.table| == |s.table| + if s.previousCode != -1 && |s.table| < 4096 then 1 else 0
  {
  }

  /**
   Data that stop early decode to a part of what the whole data decode to, and
   never bring up an error that the whole data do not bring up.
   */
  lemma {:induction false} CutOffBits(m: nat, s: State, bits: seq<Bit>, more: seq<Bit>)
    requires Inv(m, s)
    ensures var part, whole := DecodeFrom(m, s, bits), DecodeFrom(m, s, bits + more);
      if part.Success? then whole.Success? ==> part.value <= whole.value else whole == part
    decreases |bits|
  {
    if |bits| > 0 && s.codeSize <= |bits| {
      var n := s.codeSize;
      assert (bits + more)[..n] == bits[..n] && (bits + more)[n..] == bits[n..] + more;
      DecodeTurn(m, s, bits, []);
      var t := TakeTurn(m, s, Value(bits[..n]));
      if t.Continue? {
        CutOffBits(m, t.next, bits[n..], more);
      }
    }
  }

  lemma CutOffData(m: nat, data: seq<Byte>, k: nat)
    requires k <= |data|
    ensures var part, whole := Decode(m, data[..k]), Decode(m, data);
      if part.Success? then whole.Success? ==> part.value <= whole.value else whole == part
  {
    if ValidMinimum(m) {
      InitialInv(m);
      BitsOfConcat(data[..k], data[k..]);
      assert data[..k] + data[k..] == data;
      CutOffBits(m, InitialState(m), BitsOf(data[..k]), BitsOf(data[k..]));
    }
  }

  /** The dictionary vector of 4096 slots holds the table, and nothing above it. */
  ghost predicate Holds(dictionary: seq<seq<Byte>>, table: seq<seq<Byte>>)
  {
    && |table| <= |dictionary| == MAX_DICT_SIZE
    && dictionary[..|table|] == table
    && forall c :: |table| <= c < MAX_DICT_SIZE ==> dictionary[c] == []
  }

  lemma SlotIsEntry(dictionary: seq<seq<Byte>>, table: seq<seq<Byte>>, code: nat)
    requires Holds(dictionary, table) && code < MAX_DICT_SIZE
    ensures dictionary[code] == if code < |table| then table[code] else []
  {
    if code < |table| {
      assert dictionary[..|table|][code] == table[code];
    }
  }

  /** The dictionary with one-byte strings below the clear code and placeholders for the control codes. */
  method FreshDictionary(m: nat) returns (dictionary: seq<seq<Byte>>)
    requires ValidMinimum(m)
    ensures Tracks(dictionary, ClearCode(m) + 2, m + 1, -1, InitialState(m))
  {
    Pow2Values();
    dictionary := seq(MAX_DICT_SIZE, _ => []);
    for i := 0 to ClearCode(m)
      invariant |dictionary| == MAX_DICT_SIZE
      invariant forall c :: 0 <= c < i ==> dictionary[c] == [c]
      invariant forall c :: i <= c < MAX_DICT_SIZE ==> dictionary[c] == []
    {
      dictionary := dictionary[i := [i]];
    }
    dictionary := dictionary[ClearCode(m) := [0]];
    dictionary := dictionary[EoiCode(m) := [0]];
  }

  /** The local variables of the decoding loop are those of state `s`. */
  ghost predicate Tracks(dictionary: seq<seq<Byte>>, nextCode: nat, codeSize: nat, previousCode: int, s: State)
  {
    && Holds(dictionary, s.table)
    && nextCode == |s.table|
    && codeSize == s.codeSize
    && previousCode == s.previousCode
  }

  /** Stores an entry under the next free code and widens the codes if that fills the current width. */
  method StoreEntry(dictionary: seq<seq<Byte>>, nextCode: nat, codeSize: nat, newEntry: seq<Byte>,
                    ghost s: State, ghost code: nat)
    returns (dictionary': seq<seq<Byte>>, nextCode': nat, codeSize': nat)
    requires Tracks(dictionary, nextCode, codeSize, s.previousCode, s) && nextCode < MAX_DICT_SIZE
    ensures Tracks(dictionary', nextCode', codeSize', code, AddEntry(s, newEntry, code))
  {
    dictionary' := dictionary[nextCode := newEntry];
    nextCode' := nextCode + 1;
    codeSize' := codeSize;
    if nextCode' == Pow2(codeSize') && codeSize' < MAX_CODE_SIZE {
      codeSize' := codeSize' + 1;
    }
  }

  /** The two branches of the loop that take a data code; `None` is the exception for an invalid code. */
  method TakeDataCode(m: nat, dictionary: seq<seq<Byte>>, nextCode: nat, codeSize: nat, previousCode: int,
                      currentCode: nat, ghost s: State)
    returns (out: Option<seq<Byte>>, dictionary': seq<seq<Byte>>, nextCode': nat, codeSize': nat)
    requires Inv(m, s) && Tracks(dictionary, nextCode, codeSize, previousCode, s)
    requires currentCode < MAX_DICT_SIZE && IsDataCode(m, currentCode)
    ensures var t := TakeTurn(m, s, currentCode);
            if out.None? then t.Invalid?
            else t.Continue? && t.output == out.value && Tracks(dictionary', nextCode', codeSize', currentCode, t.next)
  {
    dictionary', nextCode', codeSize' := dictionary, nextCode, codeSize;
    SlotIsEntry(dictionary, s.table, currentCode);
    if previousCode != -1 {
      SlotIsEntry(dictionary, s.table, previousCode);
    }
    if currentCode < nextCode && dictionary[currentCode] != [] {
      var entry := dictionary[currentCode];
      out := Some(entry);
      if previousCode != -1 && nextCode < MAX_DICT_SIZE {
        var newEntry := dictionary[previousCode] + [entry[0]];
        dictionary', nextCode', codeSize' := StoreEntry(dictionary, nextCode, codeSize, newEntry, s, currentCode);
      }
    } else if currentCode == nextCode && previousCode != -1 {
      Entry(m, s.table, previousCode);
      var newEntry := dictionary[previousCode] + [dictionary[previousCode][0]];
      out := Some(newEntry);
      if nextCode < MAX_DICT_SIZE {
        dictionary', nextCode', codeSize' := StoreEntry(dictionary, nextCode, codeSize, newEntry, s, currentCode);
      }
    } else {
      out := None;
    }
  }

  method LZWDecompress(compressedData: seq<Byte>, minCodeSize: Byte) returns (r: Result<seq<Byte>, LzwError>)
    ensures r == Decode(minCodeSize, compressedData)
  {
    if minCodeSize < 2 || minCodeSize > 8 {
      return Failure(InvalidMinimumCodeSize);
    }
    var output := [];
    var bitReader := new BitStreamReader(compressedData);
    var clearCode := ClearCode(minCodeSize);
    var eoiCode := clearCode + 1;
    var nextCode: nat := eoiCode + 1;
    var codeSize: nat := minCodeSize + 1;
    var dictionary := FreshDictionary(minCodeSize);
    var previousCode: int := -1;
    ghost var s := InitialState(minCodeSize);
    InitialInv(minCodeSize);
    PrependNothing(DecodeFrom(minCodeSize, s, bitReader.Remaining()));
    while true
      invariant bitReader.Valid() && Inv(minCodeSize, s)
      invariant Tracks(dictionary, nextCode, codeSize, previousCode, s)
      invariant Decode(minCodeSize, compressedData)
             == Prepend(output, DecodeFrom(minCodeSize, s, bitReader.Remaining()))
      decreases |bitReader.Remaining()|
    {
      ghost var bits := bitReader.Remaining();
      var atEnd := bitReader.EndOfStream();
      if atEnd {
        break;
      }
      var read := bitReader.ReadBits(codeSize);
      if read.None? {
        break;
      }
      var currentCode := read.value;
      DecodeTurn(minCodeSize, s, bits, output);
      ghost var turn := TakeTurn(minCodeSize, s, currentCode);
      if currentCode == clearCode {
        dictionary := FreshDictionary(minCodeSize);
        nextCode := eoiCode + 1;
        codeSize := minCodeSize + 1;
        previousCode := -1;
        assert output + turn.output == output;
      } else if currentCode == eoiCode {
        break;
      } else {
        var out;
        out, dictionary, nextCode, codeSize :=
          TakeDataCode(minCodeSize, dictionary, nextCode, codeSize, previousCode, currentCode, s);
        if out.None? {
          return Failure(InvalidCode);
        }
        output := output + out.value;
        previousCode := currentCode;
      }
      s := turn.next;
    }
    assert output + [] == output;
    return Success(output);
  }
}
