/** The scancode decoder of the keyboard. */
module Keyboard {
  import opened Wrappers
  import opened Bits

  // ----- The decoder

  /** What reaches the engine: the built-in quit action, or a key-down event of one of the two input systems. */
  datatype Action = Quit | KeyDown(extended: bool, value: int)

  const PREFIX_EXTENDED: Byte := 0xE0
  const PREFIX_PAUSE: Byte := 0xE1
  const KEY_ESCAPE := 1

  /** Key numbers by scancode, sixteen to a row; zero is the unknown key. */
  const DOS_MAPPING: seq<seq<int>> := [
    [0, KEY_ESCAPE, 14, 15, 16, 17, 18, 19, 20, 21, 22, 23, 50, 51, 54, 61],
    [24, 25, 26, 27, 28, 29, 30, 31, 32, 33, 55, 56, 53, 59, 34, 35],
    [36, 37, 38, 39, 40, 41, 42, 67, 68, 69, 57, 63, 43, 44, 45, 46],
    [47, 48, 49, 66, 65, 64, 58, 70, 60, 52, 62, 2, 3, 4, 5, 6],
    [7, 8, 9, 10, 11, 71, 72, 73, 74, 75, 76, 77, 78, 79, 80, 81],
    [82, 83, 84, 85, 0, 0, 0, 12, 13]]

  const DOS_MAPPING_SIZE := 0x59

  /** The same for scancodes behind the extension prefix. */
  const DOS_EXTENDED_MAPPING: seq<seq<int>> := [
    [0, 0, 0, 0, 0, 0, 0, 0, 0, 0, 0, 0, 0, 0, 0, 0],
    [0, 0, 0, 0, 0, 0, 0, 0, 0, 0, 0, 0, 2, 4, 0, 0],
    [0, 0, 0, 0, 0, 0, 0, 0, 0, 0, 0, 0, 0, 0, 0, 0],
    [0, 0, 0, 0, 0, 1, 0, 15, 3, 0, 0, 0, 0, 0, 0, 0],
    [0, 0, 0, 0, 0, 0, 16, 6, 11, 7, 0, 13, 0, 14, 0, 9],
    [12, 10, 5, 8, 0, 0, 0, 0, 0, 0, 0, 17, 18, 19]]

  const DOS_EXTENDED_MAPPING_SIZE := 0x5E

  /** What the decoder remembers from byte to byte. */
  datatype Decoder = Decoder(extended: bool, pause: nat)

  const IDLE := Decoder(false, 0)

  function KeyOf(extended: bool, scancode: nat): Option<int>
  {
    if extended then
      if scancode < DOS_EXTENDED_MAPPING_SIZE then Some(DOS_EXTENDED_MAPPING[scancode / 16][scancode % 16]) else None
    else
      if scancode < DOS_MAPPING_SIZE then Some(DOS_MAPPING[scancode / 16][scancode % 16]) else None
  }

  /** Which key is where: its number by extension and scancode. That of this keyboard is `KeyOf`. */
  type Keymap = (bool, nat) -> Option<int>

  /** What pressing a key makes the engine do; releasing one does nothing. */
  function Pressed(keys: Keymap, extended: bool, scancode: nat): seq<Action>
  {
    match keys(extended, scancode)
    case None => []
    case Some(value) =>
      if !extended && value == KEY_ESCAPE then [Quit, KeyDown(extended, value)] else [KeyDown(extended, value)]
  }

  /** The state after one byte. */
  function After(d: Decoder, event: Byte): Decoder
  {
    if d.pause > 0 then d.(pause := d.pause - 1)
    else if event == PREFIX_PAUSE then d.(pause := 5)
    else if event == PREFIX_EXTENDED then d.(extended := true)
    else d.(extended := false)
  }

  /** What one byte makes the engine do. */
  function Actions(keys: Keymap, d: Decoder, event: Byte): seq<Action>
  {
    if d.pause > 0 || event == PREFIX_PAUSE || event == PREFIX_EXTENDED || event >= 0x80 then []
    else Pressed(keys, d.extended, event)
  }

  /**
   What one byte does, key by key: the press of a key that the table has is
   delivered once, with its number, and that of the escape key outside a
   prefixed code asks the engine to quit before. Nothing else is delivered.
   */
  lemma PressDelivered(keys: Keymap, d: Decoder, event: Byte)
    ensures var actions := Actions(keys, d, event);
      if d.pause == 0 && event < 0x80 && keys(d.extended, event).Some? then
        var key := KeyDown(d.extended, keys(d.extended, event).value);
        actions == if key == KeyDown(false, 1) then [Quit, key] else [key]
      else actions == []
  {
  }

  lemma KeyDownExactly(keys: Keymap, d: Decoder, event: Byte, extended: bool, value: int)
    ensures KeyDown(extended, value) in Actions(keys, d, event)
       <==> d.pause == 0 && event < 0x80 && extended == d.extended && keys(extended, event) == Some(value)
  {
    PressDelivered(keys, d, event);
    var actions := Actions(keys, d, event);
    if actions != [] {
      assert actions[|actions| - 1] in actions;
    }
  }

  /** The extension prefix lasts to the next byte that is neither a prefix nor part of the pause key's code. */
  lemma PrefixLasts(d: Decoder, event: Byte)
    ensures var pausing := d.pause > 0 || event == 0xE1;
      After(d, event).extended == if pausing then d.extended else event == 0xE0
    ensures After(d, event).pause == if d.pause > 0 then d.pause - 1 else if event == 0xE1 then 5 else 0
  {
  }

  function AfterAll(d: Decoder, bytes: seq<Byte>): Decoder
  {
    if bytes == [] then d else After(AfterAll(d, bytes[..|bytes| - 1]), bytes[|bytes| - 1])
  }

  function AllActions(keys: Keymap, d: Decoder, bytes: seq<Byte>): seq<Action>
  {
    if bytes == [] then []
    else AllActions(keys, d, bytes[..|bytes| - 1]) + Actions(keys, AfterAll(d, bytes[..|bytes| - 1]), bytes[|bytes| - 1])
  }

  lemma Feed(keys: Keymap, d: Decoder, bytes: seq<Byte>, b: Byte)
    ensures AfterAll(d, bytes + [b]) == After(AfterAll(d, bytes), b)
    ensures AllActions(keys, d, bytes + [b]) == AllActions(keys, d, bytes) + Actions(keys, AfterAll(d, bytes), b)
  {
    assert (bytes + [b])[..|bytes|] == bytes;
  }

  /** Bytes may be handed over in any portions, also in the middle of a prefixed code. */
  lemma {:induction false} Portions(keys: Keymap, d: Decoder, a: seq<Byte>, b: seq<Byte>)
    ensures AfterAll(d, a + b) == AfterAll(AfterAll(d, a), b)
    ensures AllActions(keys, d, a + b) == AllActions(keys, d, a) + AllActions(keys, AfterAll(d, a), b)
  {
    if b == [] {
      assert a + b == a;
    } else {
      var first, last := b[..|b| - 1], b[|b| - 1];
      LastApart(a, b);
      Portions(keys, d, a, first);
      Feed(keys, d, a + first, last);
      Feed(keys, AfterAll(d, a), first, last);
      Joined(AllActions(keys, d, a), AllActions(keys, AfterAll(d, a), first), Actions(keys, AfterAll(d, a + first), last));
    }
  }

  lemma LastApart(a: seq<Byte>, b: seq<Byte>)
    requires b != []
    ensures b[..|b| - 1] + [b[|b| - 1]] == b && (a + b[..|b| - 1]) + [b[|b| - 1]] == a + b
  {
  }

  /** The first byte, then the others. */
  lemma FirstByte(keys: Keymap, d: Decoder, b: Byte, rest: seq<Byte>)
    ensures AfterAll(d, [b] + rest) == AfterAll(After(d, b), rest)
    ensures AllActions(keys, d, [b] + rest) == Actions(keys, d, b) + AllActions(keys, After(d, b), rest)
  {
    Feed(keys, d, [], b);
    assert [] + [b] == [b];
    Portions(keys, d, [b], rest);
  }

  lemma Joined(x: seq<Action>, y: seq<Action>, z: seq<Action>)
    ensures (x + y) + z == x + (y + z)
  {
  }

  // ----- What keyboards send

  /** A key going down or up, one with the extension prefix, or the pause key. */
  datatype Code = Plain(scancode: nat, down: bool) | Extended(scancode: nat, down: bool) | Pause {

    /** The codes whose last byte is not one of the prefixes. */
    predicate WellFormed()
    {
      match this
      case Plain(s, down) => s < 0x80 && (down || (s != 0x60 && s != 0x61))
      case Extended(s, down) => s < 0x80 && (down || (s != 0x60 && s != 0x61))
      case Pause => true
    }

    function Bytes(): seq<Byte>
      requires WellFormed()
    {
      match this
      case Plain(s, down) => [if down then s else s + 0x80]
      case Extended(s, down) => [PREFIX_EXTENDED, if down then s else s + 0x80]
      case Pause => [PREFIX_PAUSE, 0x1D, 0x45, PREFIX_PAUSE, 0x9D, 0xC5]
    }

    function Meaning(keys: Keymap): seq<Action>
    {
      match this
      case Plain(s, down) => if down then Pressed(keys, false, s) else []
      case Extended(s, down) => if down then Pressed(keys, true, s) else []
      case Pause => []
    }
  }

  function Sent(codes: seq<Code>): seq<Byte>
    requires forall c :: c in codes ==> c.WellFormed()
  {
    if codes == [] then [] else codes[0].Bytes() + Sent(codes[1..])
  }

  function Meant(keys: Keymap, codes: seq<Code>): seq<Action>
  {
    if codes == [] then [] else codes[0].Meaning(keys) + Meant(keys, codes[1..])
  }

  /** One complete code does what it means, and leaves the decoder idle. */
  lemma OneCode(keys: Keymap, c: Code)
    requires c.WellFormed()
    ensures AfterAll(IDLE, c.Bytes()) == IDLE && AllActions(keys, IDLE, c.Bytes()) == c.Meaning(keys)
  {
    match c
    case Plain(s, down) =>
      Feed(keys, IDLE, [], c.Bytes()[0]);
    case Extended(s, down) =>
      Feed(keys, IDLE, [], PREFIX_EXTENDED);
      Feed(keys, IDLE, [PREFIX_EXTENDED], c.Bytes()[1]);
    case Pause =>
      Feed(keys, IDLE, [], PREFIX_PAUSE);
      assert c.Bytes() == [PREFIX_PAUSE] + [0x1D, 0x45, PREFIX_PAUSE, 0x9D, 0xC5];
      Portions(keys, IDLE, [PREFIX_PAUSE], [0x1D, 0x45, PREFIX_PAUSE, 0x9D, 0xC5]);
      Skipped(keys, IDLE.(pause := 5), [0x1D, 0x45, PREFIX_PAUSE, 0x9D, 0xC5]);
  }

  /** While the rest of the pause key's code is awaited, bytes do nothing. */
  lemma {:induction false} Skipped(keys: Keymap, d: Decoder, bytes: seq<Byte>)
    requires |bytes| <= d.pause
    ensures AfterAll(d, bytes) == d.(pause := d.pause - |bytes|) && AllActions(keys, d, bytes) == []
  {
    if bytes != [] {
      Skipped(keys, d, bytes[..|bytes| - 1]);
    }
  }

  /** So does any list of codes. */
  lemma {:induction false} AllCodes(keys: Keymap, codes: seq<Code>)
    requires forall c :: c in codes ==> c.WellFormed()
    ensures AfterAll(IDLE, Sent(codes)) == IDLE && AllActions(keys, IDLE, Sent(codes)) == Meant(keys, codes)
  {
    if codes != [] {
      OneCode(keys, codes[0]);
      AllCodes(keys, codes[1..]);
      Portions(keys, IDLE, codes[0].Bytes(), Sent(codes[1..]));
    }
  }

  /** The engine is told to quit by nothing but the byte of the escape key outside a prefixed code. */
  lemma QuitIsEscape(d: Decoder, event: Byte)
    ensures Quit in Actions(KeyOf, d, event) <==> d == IDLE && event == 0x01
  {
    PressedQuits(d.extended, event);
  }

  lemma PressedQuits(extended: bool, s: nat)
    ensures Quit in Pressed(KeyOf, extended, s) <==> !extended && s == 1
  {
    if s < DOS_MAPPING_SIZE {
      EscapeOnce(s / 16, s % 16);
    }
    if !extended && s == 1 {
      assert Pressed(KeyOf, extended, s)[0] == Quit;
    }
  }

  lemma EscapeOnce(row: nat, column: nat)
    requires row < 6 && column < |DOS_MAPPING[row]|
    ensures DOS_MAPPING[row][column] == KEY_ESCAPE <==> row == 0 && column == 1
  {
  }

  // ----- Keys without a name

  const KEY_UNKNOWN := 0

  /** The scancodes behind the prefix that have a name, row by row. */
  predicate NamedExtended(row: nat, column: nat)
  {
    match row
    case 1 => column == 0xC || column == 0xD
    case 3 => column == 5 || column == 7 || column == 8
    case 4 => 6 <= column <= 9 || column == 0xB || column == 0xD || column == 0xF
    case 5 => column <= 3 || 0xB <= column <= 0xD
    case _ => false
  }

  lemma NamedInRow(row: nat, column: nat)
    requires row < 6 && column < |DOS_EXTENDED_MAPPING[row]|
    ensures DOS_EXTENDED_MAPPING[row][column] != KEY_UNKNOWN <==> NamedExtended(row, column)
  {
  }

  /** Unnamed keys are not passed over: a press of one is delivered as the unknown key. */
  lemma UnknownDelivered(d: Decoder, event: Byte)
    ensures KeyDown(true, KEY_UNKNOWN) in Actions(KeyOf, d, event)
       <==> d.pause == 0 && d.extended && event < DOS_EXTENDED_MAPPING_SIZE && !NamedExtended(event / 16, event % 16)
  {
    if event < DOS_EXTENDED_MAPPING_SIZE {
      NamedInRow(event / 16, event % 16);
    }
    PressedIs(KeyOf, d.extended, event);
  }

  lemma PressedIs(keys: Keymap, extended: bool, scancode: nat)
    ensures KeyDown(true, KEY_UNKNOWN) in Pressed(keys, extended, scancode)
       <==> extended && keys(extended, scancode) == Some(KEY_UNKNOWN)
  {
    match keys(extended, scancode)
    case None =>
    case Some(value) =>
      assert Pressed(keys, extended, scancode)[|Pressed(keys, extended, scancode)| - 1] == KeyDown(extended, value);
  }

  /** The shift codes that keyboards put around extended keys, with the prefix: as keys go down, and as they go up. */
  predicate FakeShift(scancode: nat) { scancode == 0x2A || scancode == 0x36 }

  /**
   The table has the fake shift codes marked to be ignored. They are delivered
   as the unknown key when they go down, and are ignored only going up.
   */
  lemma FakeShiftsDelivered(scancode: nat, down: bool)
    requires FakeShift(scancode)
    ensures Extended(scancode, down).WellFormed()
    ensures AllActions(KeyOf, IDLE, Extended(scancode, down).Bytes()) == if down then [KeyDown(true, KEY_UNKNOWN)] else []
  {
    OneCode(KeyOf, Extended(scancode, down));
    NamedInRow(scancode / 16, scancode % 16);
  }

  // ----- Where each key is

  /** Scancodes by key number, sixteen to a row. */
  const DOS_PLACES: seq<seq<nat>> := [
    [0, 0x01, 0x3B, 0x3C, 0x3D, 0x3E, 0x3F, 0x40, 0x41, 0x42, 0x43, 0x44, 0x57, 0x58, 0x02, 0x03],
    [0x04, 0x05, 0x06, 0x07, 0x08, 0x09, 0x0A, 0x0B, 0x10, 0x11, 0x12, 0x13, 0x14, 0x15, 0x16, 0x17],
    [0x18, 0x19, 0x1E, 0x1F, 0x20, 0x21, 0x22, 0x23, 0x24, 0x25, 0x26, 0x2C, 0x2D, 0x2E, 0x2F, 0x30],
    [0x31, 0x32, 0x0C, 0x0D, 0x39, 0x1C, 0x0E, 0x1A, 0x1B, 0x2A, 0x36, 0x1D, 0x38, 0x0F, 0x3A, 0x2B],
    [0x35, 0x34, 0x33, 0x27, 0x28, 0x29, 0x37, 0x45, 0x46, 0x47, 0x48, 0x49, 0x4A, 0x4B, 0x4C, 0x4D],
    [0x4E, 0x4F, 0x50, 0x51, 0x52, 0x53]]

  /** The same for the keys behind the prefix. */
  const DOS_EXTENDED_PLACES: seq<seq<nat>> := [
    [0, 0x35, 0x1C, 0x38, 0x1D, 0x52, 0x47, 0x49, 0x53, 0x4F, 0x51, 0x48, 0x50, 0x4B, 0x4D, 0x37],
    [0x46, 0x5B, 0x5C, 0x5D]]

  function PlaceOf(extended: bool, key: nat): nat
    requires key <= if extended then 19 else 85
  {
    if extended then DOS_EXTENDED_PLACES[key / 16][key % 16] else DOS_PLACES[key / 16][key % 16]
  }

  lemma KeyInFirstRows(row: nat, column: nat)
    requires row < 2 && column < |DOS_MAPPING[row]|
    ensures 0 <= DOS_MAPPING[row][column] <= 85
    ensures DOS_MAPPING[row][column] != KEY_UNKNOWN ==> PlaceOf(false, DOS_MAPPING[row][column]) == 16 * row + column
  {
  }

  lemma KeyInMiddleRows(row: nat, column: nat)
    requires 2 <= row < 4 && column < |DOS_MAPPING[row]|
    ensures 0 <= DOS_MAPPING[row][column] <= 85
    ensures DOS_MAPPING[row][column] != KEY_UNKNOWN ==> PlaceOf(false, DOS_MAPPING[row][column]) == 16 * row + column
  {
  }

  lemma KeyInLastRows(row: nat, column: nat)
    requires 4 <= row < 6 && column < |DOS_MAPPING[row]|
    ensures 0 <= DOS_MAPPING[row][column] <= 85
    ensures DOS_MAPPING[row][column] != KEY_UNKNOWN ==> PlaceOf(false, DOS_MAPPING[row][column]) == 16 * row + column
  {
  }

  lemma ExtendedKeyInRow(row: nat, column: nat)
    requires row < 6 && column < |DOS_EXTENDED_MAPPING[row]|
    ensures 0 <= DOS_EXTENDED_MAPPING[row][column] <= 19
    ensures DOS_EXTENDED_MAPPING[row][column] != KEY_UNKNOWN
        ==> PlaceOf(true, DOS_EXTENDED_MAPPING[row][column]) == 16 * row + column
  {
  }

  lemma FirstPlaces(row: nat, column: nat)
    requires row < 2 && column < 16 && row + column > 0
    ensures KeyOf(false, DOS_PLACES[row][column]) == Some(16 * row + column)
  {
  }

  lemma MiddlePlaces(row: nat, column: nat)
    requires 2 <= row < 4 && column < 16
    ensures KeyOf(false, DOS_PLACES[row][column]) == Some(16 * row + column)
  {
  }

  lemma LastPlaces(row: nat, column: nat)
    requires 4 <= row < 6 && column < |DOS_PLACES[row]|
    ensures KeyOf(false, DOS_PLACES[row][column]) == Some(16 * row + column)
  {
  }

  lemma ExtendedPlaceHasKey(row: nat, column: nat)
    requires row < 2 && column < |DOS_EXTENDED_PLACES[row]| && row + column > 0
    ensures KeyOf(true, DOS_EXTENDED_PLACES[row][column]) == Some(16 * row + column)
  {
  }

  lemma KeyHasPlace(scancode: nat)
    requires scancode < DOS_MAPPING_SIZE
    ensures var key := DOS_MAPPING[scancode / 16][scancode % 16];
      0 <= key <= 85 && (key != KEY_UNKNOWN ==> PlaceOf(false, key) == scancode)
  {
    var row, column := scancode / 16, scancode % 16;
    if row < 2 {
      KeyInFirstRows(row, column);
    } else if row < 4 {
      KeyInMiddleRows(row, column);
    } else {
      KeyInLastRows(row, column);
    }
  }

  lemma PlaceHasKey(key: nat)
    requires 1 <= key <= 85
    ensures KeyOf(false, PlaceOf(false, key)) == Some(key)
  {
    var row, column := key / 16, key % 16;
    if row < 2 {
      FirstPlaces(row, column);
    } else if row < 4 {
      MiddlePlaces(row, column);
    } else {
      LastPlaces(row, column);
    }
  }

  /** Every named key is pressed by one scancode, and only by that one. */
  lemma OnePlaceForEachKey(extended: bool, scancode: nat, key: nat)
    requires 1 <= key <= if extended then 19 else 85
    ensures KeyOf(extended, scancode) == Some(key) <==> scancode == PlaceOf(extended, key)
  {
    if extended {
      ExtendedPlaceHasKey(key / 16, key % 16);
      if scancode < DOS_EXTENDED_MAPPING_SIZE {
        ExtendedKeyInRow(scancode / 16, scancode % 16);
      }
    } else {
      PlaceHasKey(key);
      if scancode < DOS_MAPPING_SIZE {
        KeyHasPlace(scancode);
      }
    }
  }
}
