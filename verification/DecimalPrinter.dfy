/** Printing integers in decimal. */
module DecimalPrinter {
  import opened Bits
  import opened Wrappers

  /** The limits of an integer type. */
  datatype Limits = Limits(min: int, max: int) {
    predicate Valid() { max >= 127 && (min == 0 || min == -max - 1) }
    predicate Holds(v: int) { min <= v <= max }
  }

  const INT := Limits(-0x8000_0000, 0x7FFF_FFFF)

  /** Division that drops the fraction, as C++ has it, and its remainder. */
  function Quotient(a: int, b: nat): int
    requires b > 0
  {
    if a < 0 then -(-a / b) else a / b
  }

  function Remainder(a: int, b: nat): int
    requires b > 0
  {
    a - b * Quotient(a, b)
  }

  // ----- Decimal numbers

  function Digit(d: nat): Byte
    requires d < 10
  {
    0x30 + d
  }

  /** The digits of a number, without any for zero. */
  function Digits(n: nat): seq<Byte>
  {
    if n == 0 then [] else Digits(n / 10) + [Digit(n % 10)]
  }

  predicate AreDigits(s: seq<Byte>) { forall k :: 0 <= k < |s| ==> 0x30 <= s[k] <= 0x39 }

  /** The number that digits stand for. */
  function ReadDigits(s: seq<Byte>): nat
    requires AreDigits(s)
  {
    if s == [] then 0 else 10 * ReadDigits(s[..|s| - 1]) + (s[|s| - 1] - 0x30)
  }

  /** Reading the digits of a number gives the number, and they do not begin with a zero. */
  lemma {:induction false} ReadWritten(n: nat)
    ensures AreDigits(Digits(n)) && ReadDigits(Digits(n)) == n
    ensures n > 0 ==> Digits(n) != [] && Digits(n)[0] != 0x30
  {
    if n > 0 {
      ReadWritten(n / 10);
      assert Digits(n)[..|Digits(n)| - 1] == Digits(n / 10);
    }
  }

  function Pow10(k: nat): (p: nat)
    ensures p > 0
  {
    if k == 0 then 1 else 10 * Pow10(k - 1)
  }

  /** The digit with weight `10^k`, counted from the end. */
  lemma {:induction false} DigitAt(n: nat, k: nat)
    requires k < |Digits(n)|
    ensures Digits(n)[|Digits(n)| - 1 - k] == 0x30 + n / Pow10(k) % 10
    decreases k
  {
    if k > 0 {
      DigitAt(n / 10, k - 1);
      DividedTwice(n, 10, Pow10(k - 1));
    }
  }

  /** No other digits without a leading zero stand for the number. */
  lemma {:induction false} WrittenIsUnique(s: seq<Byte>)
    requires AreDigits(s) && (s != [] ==> s[0] != 0x30)
    ensures s == Digits(ReadDigits(s))
  {
    if s != [] {
      var first, last := s[..|s| - 1], s[|s| - 1];
      if first != [] {
        WrittenIsUnique(first);
        NotZero(first);
      }
      Split(ReadDigits(first), last - 0x30);
      assert s == first + [last];
    }
  }

  lemma Split(first: nat, last: nat)
    requires last < 10
    ensures (10 * first + last) / 10 == first && (10 * first + last) % 10 == last
  {
  }

  lemma {:induction false} NotZero(s: seq<Byte>)
    requires AreDigits(s) && s != [] && s[0] != 0x30
    ensures ReadDigits(s) > 0
  {
    if |s| > 1 {
      NotZero(s[..|s| - 1]);
    }
  }

  /** What a value should look like in print. */
  function Decimal(v: int): seq<Byte>
  {
    if v == 0 then [Digit(0)] else if v < 0 then [0x2D] + Digits(-v) else Digits(v)
  }

  /** A decimal reader: an optional `-`, then digits. */
  function ReadDecimal(s: seq<Byte>): int
    requires if s != [] && s[0] == 0x2D then AreDigits(s[1..]) else AreDigits(s)
  {
    if s != [] && s[0] == 0x2D then 0 - ReadDigits(s[1..]) else ReadDigits(s)
  }

  /** Printing and reading gives the value back, for values of any sign and size. */
  lemma DecimalRoundTrip(v: int)
    ensures var s := Decimal(v);
      && s != [] && (if s[0] == 0x2D then AreDigits(s[1..]) else AreDigits(s))
      && ReadDecimal(s) == v && (s[0] == 0x2D <==> v < 0)
      && (s[0] == 0x30 ==> s == [0x30]) && (s[0] == 0x2D ==> |s| > 1 && s[1] != 0x30)
  {
    if v < 0 {
      SignedDigits(-v);
    } else if v > 0 {
      ReadWritten(v);
    } else {
      assert ReadDigits([Digit(0)]) == 0;
    }
  }

  lemma SignedDigits(n: nat)
    requires n > 0
    ensures var s := [0x2D] + Digits(n);
      |s| > 1 && s[0] == 0x2D && s[1] != 0x30 && AreDigits(s[1..]) && ReadDigits(s[1..]) == n
  {
    ReadWritten(n);
    assert ([0x2D] + Digits(n))[1..] == Digits(n);
  }

  /** `-105` */
  lemma DecimalOfNegative()
    ensures Decimal(-105) == [0x2D, 0x31, 0x30, 0x35]
  {
    assert Digits(1) == [0x31];
    assert Digits(10) == [0x31, 0x30];
  }

  // ----- How many digits

  /** The decision tree for `int`. */
  function NumDigitsTree(x: nat): nat
  {
    if x >= 10000 then
      if x >= 10000000 then
        if x >= 100000000 then
          if x >= 1000000000 then 10 else 9
        else 8
      else if x >= 100000 then
        if x >= 1000000 then 7 else 6
      else 5
    else if x >= 100 then
      if x >= 1000 then 4 else 3
    else if x >= 10 then 2
    else 1
  }

  /** The version for `int`, which negates a negative number; `None` if that leaves the type, which is undefined behaviour. */
  function NumDigitsInt(x: int): Option<nat>
    requires INT.Holds(x)
  {
    if x >= 0 then Some(NumDigitsTree(x))
    else if INT.Holds(-x) then Some(NumDigitsTree(-x) + 1)
    else None
  }

  /** The decision tree counts what is printed, as the division loop does, for every `int` but the smallest. */
  lemma IntVersionAgrees(x: int)
    requires INT.Holds(x)
    ensures NumDigitsInt(x) == (if x == INT.min then None else Some(|Decimal(x)|))
  {
    if x != 0 && x != INT.min {
      TreeIsLength(if x < 0 then -x else x);
    }
  }

  lemma TreeIsLength(x: nat)
    requires 0 < x && INT.Holds(x)
    ensures NumDigitsTree(x) == |Digits(x)|
  {
    var x1 := x / 10;
    var x2 := x1 / 10;
    var x3 := x2 / 10;
    var x4 := x3 / 10;
    var x5 := x4 / 10;
    var x6 := x5 / 10;
    var x7 := x6 / 10;
    var x8 := x7 / 10;
    var x9 := x8 / 10;
    assert x9 < 10;
    Length(x);
    Length(x1);
    Length(x2);
    Length(x3);
    Length(x4);
    Length(x5);
    Length(x6);
    Length(x7);
    Length(x8);
    Length(x9);
    assert |Digits(x9 / 10)| == 0;
  }

  lemma Length(n: nat)
    ensures |Digits(n)| == if n == 0 then 0 else |Digits(n / 10)| + 1
  {
  }

  lemma {:induction false} LengthMonotone(a: nat, b: nat)
    requires a <= b
    ensures |Digits(a)| <= |Digits(b)|
  {
    if a > 0 {
      LengthMonotone(a / 10, b / 10);
    }
  }

  /** The division loop, for the other types: a minus sign counts as well. */
  method NumDigitsLoop(number: int) returns (digits: nat)
    ensures digits == |Decimal(number)|
  {
    if number == 0 {
      return 1;
    }
    digits := 0;
    if number < 0 {
      digits := 1;
    }
    ghost var sign := digits;
    var rest := number;
    while rest != 0
      invariant digits + |Digits(Magnitude(rest))| == sign + |Digits(Magnitude(number))|
      decreases Magnitude(rest)
    {
      rest := Quotient(rest, 10);
      digits := digits + 1;
    }
  }

  function Magnitude(v: int): nat { if v < 0 then -v else v }

  // ----- The formatter

  class Context {
    var out: seq<Byte>

    constructor ()
      ensures out == []
    {
      out := [];
    }

    method Put(b: Byte)
      modifies this
      ensures out == old(out) + [b]
    {
      out := out + [b];
    }

    /** Every value of the type, the smallest one included, comes out in decimal; no step leaves the range of the type. */
    method Print(value: int, t: Limits)
      requires t.Valid() && t.Holds(value)
      modifies this
      ensures out == old(out) + Decimal(value)
      decreases if value < 0 then 1 else 0
    {
      if value == 0 {
        Put(0x30);
        return;
      }
      if value < 0 {
        Put(0x2D);
        if value == t.min {
          assert t.Holds(-Quotient(value, 10)) && t.Holds(-Remainder(value, 10));
          Print(-Quotient(value, 10), t);
          Put(Digit(-Remainder(value, 10)));
          return;
        }
        assert t.Holds(-value);
        Print(-value, t);
        return;
      }
      PrintPositive(value, t);
    }

    /** Fills a buffer from its end, two digits a turn. */
    method PrintPositive(value: nat, t: Limits)
      requires t.Valid() && t.Holds(value) && value > 0
      modifies this
      ensures out == old(out) + Digits(value)
    {
      LengthMonotone(value, t.max);
      var capacity := NumDigitsLoop(t.max);
      var buffer := new Byte[capacity](_ => 0);
      var size := NumDigitsLoop(value);
      var rest, c := FillPairs(value, size, buffer);
      FillRest(value, size, rest, c, buffer);
      out := out + buffer[..size];
    }
  }

  /** The last places of the buffer hold the digits that `rest` lacks; `c` is the place before them. */
  ghost predicate Filled(value: nat, size: nat, rest: nat, c: int, buffer: seq<Byte>)
  {
    c + 1 == |Digits(rest)| <= size <= |buffer| && Digits(value) == Digits(rest) + buffer[c + 1..size]
  }

  /** Two digits a turn, from the end. */
  method FillPairs(value: nat, size: nat, buffer: array<Byte>) returns (rest: nat, c: int)
    requires value > 0 && size == |Digits(value)| <= buffer.Length
    modifies buffer
    ensures 0 < rest < 100 && Filled(value, size, rest, c, buffer[..])
  {
    rest := value;
    c := size - 1;
    while rest >= 100
      invariant rest > 0 && Filled(value, size, rest, c, buffer[..])
    {
      var pos := rest % 100;
      TwoDigits(rest);
      NextPair(value, size, rest, c, buffer[..]);
      rest := rest / 100;
      buffer[c - 1], buffer[c] := Digit(pos / 10), Digit(pos % 10);
      c := c - 2;
    }
  }

  lemma NextPair(value: nat, size: nat, rest: nat, c: int, buffer: seq<Byte>)
    requires rest >= 100 && Filled(value, size, rest, c, buffer)
    ensures c >= 1
    ensures Filled(value, size, rest / 100, c - 2, buffer[c - 1 := Digit(rest % 100 / 10)][c := Digit(rest % 100 % 10)])
  {
    TwoDigits(rest);
    var next := buffer[c - 1 := Digit(rest % 100 / 10)][c := Digit(rest % 100 % 10)];
    assert next[c - 1..size] == [Digit(rest % 100 / 10), Digit(rest % 100 % 10)] + buffer[c + 1..size];
  }

  /** The one or two digits at the front. */
  method FillRest(value: nat, size: nat, rest0: nat, c0: int, buffer: array<Byte>)
    requires Filled(value, size, rest0, c0, buffer[..])
    modifies buffer
    ensures size <= buffer.Length && buffer[..size] == Digits(value)
  {
    var rest, c := rest0, c0;
    while rest > 0
      invariant Filled(value, size, rest, c, buffer[..])
    {
      assert buffer[..][c := Digit(rest % 10)][c..size] == [Digit(rest % 10)] + buffer[..][c + 1..size];
      buffer[c] := Digit(rest % 10);
      c := c - 1;
      rest := rest / 10;
    }
  }

  lemma TwoDigits(n: nat)
    requires n >= 100
    ensures Digits(n) == Digits(n / 100) + [Digit(n % 100 / 10), Digit(n % 100 % 10)]
    ensures |Digits(n / 100)| > 0
  {
    assert n / 10 / 10 == n / 100 && n / 10 % 10 == n % 100 / 10 && n % 10 == n % 100 % 10;
    assert Digits(n) == Digits(n / 10) + [Digit(n % 10)];
    assert Digits(n / 10) == Digits(n / 100) + [Digit(n / 10 % 10)];
  }
}
