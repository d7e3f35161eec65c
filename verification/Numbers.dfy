/** Magnitudes and extremes. */
module Numbers {

  function Abs(i: int): (r: int)
    ensures r >= 0
  {
    if i < 0 then -i else i
  }

  function Min(a: nat, b: nat): nat { if a < b then a else b }

  function Max(a: nat, b: nat): nat { if a < b then b else a }
}
