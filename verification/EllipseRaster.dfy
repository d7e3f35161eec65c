/** The midpoint ellipse of the painters. */
module EllipseRaster {

  type Coord = c: int | 0 <= c < 0x1_0000

  /** The two versions of `lrint`: to the nearest even number, as the standard has it, or half up, as for DJGPP. */
  datatype Rounding = HalfEven | HalfUp

  /** `lrint` of a number given in quarters. */
  function Lrint(mode: Rounding, quarters: int): int
  {
    var (floor, rest) := (quarters / 4, quarters % 4);
    if rest < 2 then floor
    else if rest > 2 then floor + 1
    else if mode == HalfUp || floor % 2 == 1 then floor + 1
    else floor
  }

  /** An ellipse around the origin; `a` is the square of its height radius, `b` that of its width radius. */
  datatype Ellipse = Ellipse(rx: nat, ry: nat) {

    function A(): nat { ry * ry }

    function B(): nat { rx * rx }

    /**
     Four times the value at (`u` / 2, `v` / 2) of the function that is zero
     on the ellipse, negative inside and positive outside.
     */
    function Side(u: int, v: int): int
    {
      A() * (u * u) + B() * (v * v) - 4 * (A() * B())
    }

    /** Whether the tangent is still flatter than one pixel down for each pixel right. */
    predicate Flat(x: int, y: int) { A() * x < B() * y }

    /**
     The midpoint rule, evaluated directly. In the flat part the next pixel
     to the right is taken, a row lower if the point between the two
     candidates is not inside; in the steep part the next pixel down, a
     column further right if the point between lies inside or no more than
     a quarter outside.
     */
    function Next(p: Offset): Offset
    {
      if Flat(p.x, p.y) then Offset(p.x + 1, if Side(2 * p.x + 2, 2 * p.y - 1) < 0 then p.y else p.y - 1)
      else Offset(if Side(2 * p.x + 1, 2 * p.y - 2) > 1 then p.x else p.x + 1, p.y - 1)
    }

    /** The pixels of a quarter of the ellipse, from its top on. */
    ghost predicate Follows(arc: seq<Offset>)
      decreases |arc|
    {
      && arc != []
      && if |arc| == 1 then arc[0] == Offset(0, ry)
         else Follows(arc[..|arc| - 1]) && arc[|arc| - 1] == Next(arc[|arc| - 2])
    }

    /** The whole quarter, down to the middle row. */
    ghost predicate IsArc(arc: seq<Offset>)
    {
      Follows(arc) && arc[|arc| - 1].y == 0
    }
  }

  /** A pixel of the quarter, as columns and rows from the centre. */
  datatype Offset = Offset(x: int, y: int)

  // ----- Arithmetic

  lemma SideRight(e: Ellipse, u: int, v: int)
    ensures e.Side(u + 2, v) == e.Side(u, v) + 4 * (e.A() * u) + 4 * e.A()
  {
    var a := e.A();
    assert (u + 2) * (u + 2) == u * u + 4 * u + 4;
    assert a * (u * u + 4 * u + 4) == a * (u * u) + 4 * (a * u) + 4 * a;
  }

  lemma SideDown(e: Ellipse, u: int, v: int)
    ensures e.Side(u, v - 2) == e.Side(u, v) - 4 * (e.B() * v) + 4 * e.B()
  {
    var b := e.B();
    assert (v - 2) * (v - 2) == v * v - 4 * v + 4;
    assert b * (v * v - 4 * v + 4) == b * (v * v) - 4 * (b * v) + 4 * b;
  }

  lemma Distribute(a: int, x: int)
    ensures a * (x + 1) == a * x + a
    ensures a * (x - 1) == a * x - a
    ensures a * (2 * x) == 2 * (a * x)
    ensures a * (2 * x + 1) == 2 * (a * x) + a
    ensures a * (2 * x - 1) == 2 * (a * x) - a
    ensures a * (2 * x + 2) == 2 * (a * x) + 2 * a
    ensures a * (2 * x - 2) == 2 * (a * x) - 2 * a
  {
  }

  /** The square of a whole number is a multiple of four, or one more; so `lrint` never meets a half. */
  lemma SquareMod4(n: nat)
    ensures n * n % 4 == n % 2
  {
    var h := n / 2;
    if n % 2 == 0 {
      assert n * n == 4 * (h * h);
    } else {
      assert n == 2 * h + 1;
      assert n * n == 4 * (h * h + h) + 1;
    }
  }

  /** Both roundings of a quarter of `4 * k + r` are `k` when `r` is 0 or 1. */
  lemma LrintOfQuarter(mode: Rounding, q: int, k: int, r: int)
    requires q == 4 * k + r && 0 <= r <= 1
    ensures Lrint(mode, q) == k
  {
  }

  // ----- What the arc looks like

  /** In the flat part, pixels lie less than half a row outside the ellipse. */
  ghost predicate Near(e: Ellipse, p: Offset)
  {
    && 0 <= p.x <= e.rx && 0 <= p.y <= e.ry
    && (e.Flat(p.x, p.y) ==> e.Side(2 * p.x, 2 * p.y - 1) < 0)
  }

  lemma MulMonotone(a: nat, x: int, y: int)
    requires x <= y
    ensures a * x <= a * y
  {
    assert a * (y - x) >= 0;
  }

  /** Flat pixels that are near the ellipse are left of its right end, and above its middle. */
  lemma FlatIsInside(e: Ellipse, p: Offset)
    requires Near(e, p) && e.Flat(p.x, p.y)
    ensures p.x < e.rx && p.y > 0 && e.A() >= 1
  {
    FlatHasHeight(e, p.x, p.y);
    RightEndNotInside(e, 2 * p.y - 1);
  }

  lemma RightEndNotInside(e: Ellipse, v: int)
    ensures e.Side(2 * e.rx, v) >= 0
  {
    var a, b := e.A(), e.B();
    assert (2 * e.rx) * (2 * e.rx) == 4 * b;
    assert a * (4 * b) == 4 * (a * b);
    SquareTimes(b, v);
  }

  lemma SquareTimes(b: nat, v: int)
    ensures b * (v * v) >= 0
  {
    assert v * v >= 0;
  }

  lemma NextInFlat(e: Ellipse, p: Offset)
    requires Near(e, p) && e.Flat(p.x, p.y)
    ensures Near(e, e.Next(p))
  {
    FlatIsInside(e, p);
    var q := e.Next(p);
    if q.y == p.y - 1 && e.Flat(q.x, q.y) {
      SideRight(e, 2 * p.x, 2 * p.y - 1);
      SideDown(e, 2 * p.x + 2, 2 * p.y - 1);
      Distribute(e.A(), p.x);
      Distribute(e.B(), p.y);
    }
  }

  /** Right of its right end, every point is well outside the ellipse. */
  lemma RightEndIsOutside(e: Ellipse, v: int)
    requires e.rx >= 1 && e.ry >= 1
    ensures e.Side(2 * e.rx + 1, v) > 1
  {
    var a, b := e.A(), e.B();
    var u := 2 * e.rx + 1;
    assert u * u == 4 * b + (4 * e.rx + 1);
    assert a * (4 * b + (4 * e.rx + 1)) == 4 * (a * b) + a * (4 * e.rx + 1);
    assert a >= 1 by {
      MulMonotone(e.ry, 1, e.ry);
    }
    assert a * (4 * e.rx + 1) >= 5 by {
      MulMonotone(4 * e.rx + 1, 1, a);
    }
    assert b * (v * v) >= 0 by {
      assert v * v >= 0;
    }
  }

  /** With no width at all, only an ellipse three rows high leads astray. */
  lemma NoWidthIsOutside(e: Ellipse, v: int)
    requires e.rx == 0 && e.ry >= 2
    ensures e.Side(1, v) > 1
  {
    MulMonotone(e.ry, 2, e.ry);
  }

  /** The only ellipse for which the code leaves its box: no columns beside the centre, and one row above and below. */
  predicate Astray(e: Ellipse) { e.rx == 0 && e.ry == 1 }

  lemma NextInSteep(e: Ellipse, p: Offset)
    requires Near(e, p) && !e.Flat(p.x, p.y) && p.y > 0 && !Astray(e)
    ensures Near(e, e.Next(p)) && !e.Flat(e.Next(p).x, e.Next(p).y)
  {
    var q := e.Next(p);
    if p.x == e.rx {
      if e.rx >= 1 {
        RightEndIsOutside(e, 2 * p.y - 2);
      } else {
        NoWidthIsOutside(e, 2 * p.y - 2);
      }
    }
    MulMonotone(e.A(), p.x, q.x);
    MulMonotone(e.B(), q.y, p.y);
  }

  /** An arc that is not finished yet, or is finished: every pixel but the last is above the middle row. */
  lemma {:induction false} ArcPixel(e: Ellipse, arc: seq<Offset>, k: nat)
    requires e.Follows(arc) && k < |arc| && arc[|arc| - 1].y >= 0 && !Astray(e)
    ensures Near(e, arc[k])
    ensures k + 1 < |arc| ==> arc[k + 1] == e.Next(arc[k])
    ensures arc[|arc| - 1].y <= arc[k].y && arc[k].x <= arc[|arc| - 1].x
    decreases |arc|
  {
    var n := |arc| - 1;
    if n == 0 {
      TopIsNear(e);
    } else {
      ArcPixel(e, arc[..n], n - 1);
      if e.Flat(arc[n - 1].x, arc[n - 1].y) {
        NextInFlat(e, arc[n - 1]);
      } else {
        NextInSteep(e, arc[n - 1]);
      }
      if k < n {
        ArcPixel(e, arc[..n], k);
      }
    }
  }

  lemma TopIsNear(e: Ellipse)
    ensures Near(e, Offset(0, e.ry))
  {
    var a, b := e.A(), e.B();
    if e.Flat(0, e.ry) {
      var v := 2 * e.ry - 1;
      assert b >= 1 && e.ry >= 1;
      assert v * v == 4 * a - (4 * e.ry - 1);
      assert b * (4 * a - (4 * e.ry - 1)) == 4 * (a * b) - b * (4 * e.ry - 1);
      MulMonotone(b, 1, 4 * e.ry - 1);
    }
  }

  /** All pixels are in the box, columns never go back and rows go down by at most one. */
  lemma ArcInBox(e: Ellipse, arc: seq<Offset>, k: nat)
    requires e.IsArc(arc) && k < |arc| && !Astray(e)
    ensures 0 <= arc[k].x <= e.rx && 0 <= arc[k].y <= e.ry
    ensures k + 1 < |arc| ==> arc[k].x <= arc[k + 1].x <= arc[k].x + 1 && arc[k].y - 1 <= arc[k + 1].y <= arc[k].y
  {
    ArcPixel(e, arc, k);
  }

  /** Every row from the top to the middle has a pixel. */
  lemma {:induction false} RowReached(e: Ellipse, arc: seq<Offset>, y: nat) returns (k: nat)
    requires e.Follows(arc) && 0 <= arc[|arc| - 1].y <= y <= e.ry && !Astray(e)
    ensures k < |arc| && arc[k].y == y
    decreases |arc|
  {
    var n := |arc| - 1;
    if arc[n].y == y {
      k := n;
    } else {
      ArcPixel(e, arc, n - 1);
      k := RowReached(e, arc[..n], y);
    }
  }

  /** The top of the ellipse is less than half a row above the first pixel. */
  lemma TopIsAccurate(e: Ellipse)
    ensures e.Side(0, 2 * e.ry + 1) >= 0
  {
    var a, b, v := e.A(), e.B(), 2 * e.ry + 1;
    assert v * v == 4 * a + (4 * e.ry + 1);
    assert b * (4 * a + (4 * e.ry + 1)) == 4 * (a * b) + b * (4 * e.ry + 1);
    assert b * (4 * e.ry + 1) >= 0;
  }

  /** In the flat part the plotted row is the nearest one: the ellipse passes within half a pixel above or below. */
  lemma {:induction false} FlatPartIsAccurate(e: Ellipse, arc: seq<Offset>)
    requires e.Follows(arc) && arc[|arc| - 1].y >= 0 && !Astray(e)
    requires e.Flat(arc[|arc| - 1].x, arc[|arc| - 1].y)
    ensures e.Side(2 * arc[|arc| - 1].x, 2 * arc[|arc| - 1].y - 1) < 0
    ensures e.Side(2 * arc[|arc| - 1].x, 2 * arc[|arc| - 1].y + 1) >= 0
    decreases |arc|
  {
    var n := |arc| - 1;
    ArcPixel(e, arc, n);
    if n == 0 {
      TopIsAccurate(e);
    } else {
      var p := arc[n - 1];
      ArcPixel(e, arc, n - 1);
      if e.Flat(p.x, p.y) {
        FlatPartIsAccurate(e, arc[..n]);
        NextIsAccurate(e, p);
      } else {
        NextInSteep(e, p);
      }
    }
  }

  lemma NextIsAccurate(e: Ellipse, p: Offset)
    requires e.Flat(p.x, p.y) && p.x >= 0 && e.Side(2 * p.x, 2 * p.y + 1) >= 0
    ensures e.Side(2 * e.Next(p).x, 2 * e.Next(p).y + 1) >= 0
  {
    var q := e.Next(p);
    if q.y == p.y {
      SideGrows(e, p.x, 2 * p.y + 1);
      assert 2 * q.x == 2 * p.x + 2;
    } else {
      assert 2 * q.x == 2 * p.x + 2 && 2 * q.y + 1 == 2 * p.y - 1;
    }
  }

  lemma SideGrows(e: Ellipse, x: int, v: int)
    requires x >= 0
    ensures e.Side(2 * x + 2, v) >= e.Side(2 * x, v)
  {
    SideRight(e, 2 * x, v);
    assert e.A() * (2 * x) >= 0;
  }

  /** Half a column to the right. */
  lemma SideRightHalf(e: Ellipse, u: int, v: int)
    ensures e.Side(u + 1, v) == e.Side(u, v) + 2 * (e.A() * u) + e.A()
  {
    var a := e.A();
    assert (u + 1) * (u + 1) == u * u + 2 * u + 1;
    assert a * (u * u + 2 * u + 1) == a * (u * u) + 2 * (a * u) + a;
  }

  /** Half a row down. */
  lemma SideDownHalf(e: Ellipse, u: int, v: int)
    ensures e.Side(u, v - 1) == e.Side(u, v) - 2 * (e.B() * v) + e.B()
  {
    var b := e.B();
    assert (v - 1) * (v - 1) == v * v - 2 * v + 1;
    assert b * (v * v - 2 * v + 1) == b * (v * v) - 2 * (b * v) + b;
  }

  /** The ellipse passes within one column to the left or right. */
  ghost predicate InColumn(e: Ellipse, p: Offset)
  {
    e.Side(2 * p.x - 2, 2 * p.y) <= 0 <= e.Side(2 * p.x + 2, 2 * p.y)
  }

  /** A pixel of the middle row above or below which the ellipse passes within half a row. */
  ghost predicate AtTip(e: Ellipse, p: Offset)
  {
    p.y == 0 && e.Side(2 * p.x, 0) <= 0 <= e.Side(2 * p.x, 1)
  }

  /** Where the flat part ends, the ellipse passes on the left within one column. */
  lemma FlatToSteepLeft(e: Ellipse, p: Offset)
    requires Near(e, p) && e.Flat(p.x, p.y) && !e.Flat(e.Next(p).x, e.Next(p).y)
    ensures e.Side(2 * e.Next(p).x - 2, 2 * e.Next(p).y) <= 0
  {
    FlatIsInside(e, p);
    var (x, y) := (p.x, p.y);
    Distribute(e.B(), y);
    Distribute(e.A(), x);
    if e.Next(p).y == y {
      SideDownHalf(e, 2 * x, 2 * y);
      SideRight(e, 2 * x, 2 * y - 1);
      MulMonotone(e.A(), 0, x);
    } else {
      SideDownHalf(e, 2 * x, 2 * y - 1);
      MulMonotone(e.B(), 1, y);
    }
  }

  lemma FlatToSteep(e: Ellipse, p: Offset)
    requires Near(e, p) && e.Flat(p.x, p.y) && !e.Flat(e.Next(p).x, e.Next(p).y)
    requires e.Side(2 * p.x, 2 * p.y + 1) >= 0
    ensures InColumn(e, e.Next(p)) || AtTip(e, e.Next(p))
  {
    var q := e.Next(p);
    FlatToSteepLeft(e, p);
    NextInFlat(e, p);
    NextIsAccurate(e, p);
    if q.y == 0 {
      InsideOnMiddleRow(e, q.x);
    } else {
      SideRight(e, 2 * q.x, 2 * q.y + 1);
      SideDownHalf(e, 2 * q.x + 2, 2 * q.y + 1);
      Distribute(e.A(), q.x);
      Distribute(e.B(), q.y);
      MulMonotone(e.B(), 1, q.y);
      MulMonotone(e.A(), 0, q.x);
    }
  }

  lemma InsideOnMiddleRow(e: Ellipse, x: nat)
    requires x <= e.rx
    ensures e.Side(2 * x, 0) <= 0
  {
    assert x * x <= e.rx * e.rx by {
      MulMonotone(x, x, e.rx);
      MulMonotone(e.rx, x, e.rx);
    }
    MulMonotone(e.A(), x * x, e.B());
    assert (2 * x) * (2 * x) == 4 * (x * x);
    assert e.A() * (4 * (x * x)) == 4 * (e.A() * (x * x));
  }

  lemma SteepToSteep(e: Ellipse, p: Offset)
    requires Near(e, p) && !e.Flat(p.x, p.y) && p.y > 0 && e.A() >= 1 && InColumn(e, p)
    ensures InColumn(e, e.Next(p))
  {
    var (x, y) := (p.x, p.y);
    Distribute(e.A(), x);
    Distribute(e.B(), y);
    MulMonotone(e.A(), 0, x);
    MulMonotone(e.B(), 1, y);
    if e.Next(p).x == x {
      SideDown(e, 2 * x - 2, 2 * y);
      SideRightHalf(e, 2 * x + 1, 2 * y - 2);
    } else {
      SideRightHalf(e, 2 * x, 2 * y - 2);
      SideDown(e, 2 * x + 4, 2 * y);
      SideRight(e, 2 * x + 2, 2 * y);
    }
  }

  /**
   No pixel of the arc is far from the ellipse. In the flat part the ellipse
   passes within half a row above or below it; in the steep part, within one
   column to its left or right. Only a last pixel that a flat step leads to
   can be further inside; there the ellipse passes within half a row.
   */
  lemma {:induction false} ArcIsAccurate(e: Ellipse, arc: seq<Offset>)
    requires e.Follows(arc) && arc[|arc| - 1].y >= 0 && e.rx >= 1 && e.ry >= 1
    ensures var p := arc[|arc| - 1];
      if e.Flat(p.x, p.y) then e.Side(2 * p.x, 2 * p.y - 1) < 0 <= e.Side(2 * p.x, 2 * p.y + 1)
      else InColumn(e, p) || AtTip(e, p)
    decreases |arc|
  {
    var n := |arc| - 1;
    if e.Flat(arc[n].x, arc[n].y) {
      FlatPartIsAccurate(e, arc);
    } else if n == 0 {
      MulMonotone(e.rx, 1, e.rx);
      MulMonotone(e.B(), 1, e.ry);
    } else {
      var p := arc[n - 1];
      ArcPixel(e, arc, n - 1);
      if e.Flat(p.x, p.y) {
        FlatPartIsAccurate(e, arc[..n]);
        FlatToSteep(e, p);
      } else {
        NextRow(e, p);
        ArcIsAccurate(e, arc[..n]);
        MulMonotone(e.ry, 1, e.ry);
        SteepToSteep(e, p);
      }
    }
  }

  /** Half a column would be too much to promise: the first steep pixel of this ellipse is further away. */
  lemma FirstSteepPixelIsOff()
    ensures var e := Ellipse(1, 8);
      && e.Next(Offset(0, 8)) == Offset(1, 7) && e.Flat(0, 8) && !e.Flat(1, 7)
      && e.Side(2 * 1 - 1, 2 * 7) > 1 && e.Side(2 * 1, 2 * 7 - 1) > 0
  {
  }

  // ----- How far the arc goes

  /** The arc gets to the ends of the middle row; ellipses that are too flat for that have their ends cut off. */
  predicate ReachesTip(e: Ellipse) { e.rx == 0 || e.B() < 4 * (e.A() * (2 * e.rx - 1)) }

  lemma SquareMonotone(x: nat, y: nat)
    requires x <= y
    ensures x * x <= y * y
  {
    MulMonotone(x, x, y);
    MulMonotone(y, x, y);
  }

  lemma ShortStay(a: nat, r: nat, x: nat)
    requires x < r
    ensures a * ((2 * x + 1) * (2 * x + 1)) <= 4 * (a * (r * r))
  {
    var w, z := (2 * x + 1) * (2 * x + 1), (2 * r) * (2 * r);
    SquareMonotone(2 * x + 1, 2 * r);
    MulMonotone(a, w, z);
    assert z == 4 * (r * r) && a * (4 * (r * r)) == 4 * (a * (r * r));
  }

  lemma ShortMove(a: nat, r: nat, x: nat)
    requires a >= 1 && x + 1 < r && a * x >= r * r
    ensures a * ((2 * x + 2) * (2 * x + 2)) + 4 * (r * r) < 4 * (a * (r * r))
  {
    var w, b := (x + 1) * (x + 1), r * r;
    SquareMonotone(x + 1, r - 1);
    assert (r - 1) * (r - 1) == b - 2 * r + 1;
    MulMonotone(a, w + x, b - 1);
    assert a * (w + x) == a * w + a * x && a * (b - 1) == a * b - a;
    assert (2 * x + 2) * (2 * x + 2) == 4 * w && a * (4 * w) == 4 * (a * w);
  }

  lemma SteepIsNotFlat(a: nat, r: nat, x: nat)
    requires a >= 1 && 1 <= r && x <= r && a * x >= r * r
    ensures r * r < 4 * (a * (2 * r - 1))
  {
    MulMonotone(a, x, r);
    Distribute(a, r);
    MulMonotone(a, 1, r);
    SquareMonotone(1, r);
  }

  lemma TipFromSteep(e: Ellipse, x: nat)
    requires e.rx >= 1 && e.A() >= 1 && x <= e.rx && !e.Flat(x, 1) && e.Side(2 * x + 2, 2) >= 0
    requires e.Next(Offset(x, 1)).x <= e.rx
    ensures e.Next(Offset(x, 1)).x == e.rx && ReachesTip(e)
  {
    SteepIsNotFlat(e.A(), e.rx, x);
    if x < e.rx {
      ShortStay(e.A(), e.rx, x);
      MiddleRow(e, 2 * x + 1);
    }
    if x + 1 < e.rx {
      ShortMove(e.A(), e.rx, x);
    }
  }

  lemma MiddleRow(e: Ellipse, u: int)
    ensures e.Side(u, 0) == e.A() * (u * u) - 4 * (e.A() * e.B())
  {
  }

  lemma BeforeTip(e: Ellipse)
    requires e.rx >= 1
    ensures e.Side(2 * (e.rx - 1), 1) == e.B() - 4 * (e.A() * (2 * e.rx - 1))
  {
    var (a, b, r) := (e.A(), e.B(), e.rx);
    assert (2 * (r - 1)) * (2 * (r - 1)) == 4 * b - 4 * (2 * r - 1);
    assert a * (4 * b - 4 * (2 * r - 1)) == 4 * (a * b) - 4 * (a * (2 * r - 1));
  }

  lemma TipFromFlat(e: Ellipse, x: nat)
    requires e.rx >= 1 && Near(e, Offset(x, 1)) && e.Flat(x, 1) && e.Next(Offset(x, 1)).y == 0
    ensures e.Next(Offset(x, 1)).x == e.rx <==> ReachesTip(e)
  {
    FlatIsInside(e, Offset(x, 1));
    BeforeTip(e);
    assert e.Side(2 * x, 1) < 0 <= e.Side(2 * (x + 1), 1);
    if x + 1 <= e.rx - 1 {
      SideBelow(e, x + 1, e.rx - 1);
    }
  }

  lemma SideBelow(e: Ellipse, x: nat, x': nat)
    requires x <= x'
    ensures e.Side(2 * x, 1) <= e.Side(2 * x', 1)
  {
    MulMonotone(2 * x, 2 * x, 2 * x');
    MulMonotone(2 * x', 2 * x, 2 * x');
    MulMonotone(e.A(), (2 * x) * (2 * x), (2 * x') * (2 * x'));
  }

  lemma NextRow(e: Ellipse, p: Offset)
    requires p.x >= 0
    ensures p.x <= e.Next(p).x && p.y - 1 <= e.Next(p).y <= p.y
    ensures p.y <= 0 ==> e.Next(p).y == p.y - 1
  {
    assert e.A() * p.x >= 0;
    if p.y <= 0 {
      MulMonotone(e.B(), p.y, 0);
    }
  }

  /** Rows never go up, and from the middle row the next step leaves the upper half. */
  lemma {:induction false} RowsGoDown(e: Ellipse, arc: seq<Offset>, k: nat)
    requires e.Follows(arc) && k < |arc|
    ensures arc[k].x >= 0 && arc[|arc| - 1].y <= arc[k].y
    ensures arc[k].y == 0 && k < |arc| - 1 ==> arc[|arc| - 1].y < 0
    decreases |arc|
  {
    var n := |arc| - 1;
    if n > 0 {
      var p := arc[n - 1];
      RowsGoDown(e, arc[..n], n - 1);
      NextRow(e, p);
      if k < n {
        RowsGoDown(e, arc[..n], k);
      }
    }
  }

  lemma {:induction false} SamePixels(e: Ellipse, arc: seq<Offset>, other: seq<Offset>)
    requires e.Follows(arc) && e.Follows(other) && |arc| <= |other|
    ensures arc == other[..|arc|]
    decreases |arc| + |other|
  {
    var n := |arc| - 1;
    if |arc| < |other| {
      SamePixels(e, arc, other[..|other| - 1]);
    } else if n > 0 {
      SamePixels(e, arc[..n], other[..n]);
      assert arc == arc[..n] + [arc[n]] && other == other[..n] + [other[n]];
      assert arc[n - 1] == arc[..n][n - 1] && other[n - 1] == other[..n][n - 1];
    }
  }

  /** The rule leaves no choice. */
  lemma ArcIsUnique(e: Ellipse, arc: seq<Offset>, other: seq<Offset>)
    requires e.IsArc(arc) && e.IsArc(other)
    ensures arc == other
  {
    if |arc| <= |other| {
      SamePixels(e, arc, other);
      RowsGoDown(e, other, |arc| - 1);
    } else {
      SamePixels(e, other, arc);
      RowsGoDown(e, arc, |other| - 1);
    }
  }

  /** The arc ends at the full width exactly if the ellipse is not too flat. */
  lemma TipIsReached(e: Ellipse, arc: seq<Offset>)
    requires e.IsArc(arc) && !Astray(e)
    ensures arc[|arc| - 1].x == e.rx <==> ReachesTip(e)
  {
    var n := |arc| - 1;
    ArcPixel(e, arc, n);
    if e.rx >= 1 {
      if n == 0 {
        assert arc[n] == Offset(0, 0) && e.A() == 0;
      } else {
        var p := arc[n - 1];
        ArcPixel(e, arc, n - 1);
        NextRow(e, p);
        assert p.y == 1;
        if e.Flat(p.x, 1) {
          TipFromFlat(e, p.x);
        } else {
          MulMonotone(e.ry, 1, e.ry);
          ArcIsAccurate(e, arc[..n]);
          TipFromSteep(e, p.x);
        }
      }
    }
  }

  lemma NextAstray()
    ensures Ellipse(0, 1).Next(Offset(0, 1)) == Offset(1, 0)
  {
  }

  lemma ExtendFollows(e: Ellipse, arc: seq<Offset>, p: Offset)
    requires e.Follows(arc) && p == e.Next(arc[|arc| - 1])
    ensures e.Follows(arc + [p])
  {
    assert (arc + [p])[..|arc|] == arc;
  }

  lemma FollowsFromTop(e: Ellipse)
    ensures e.Follows([Offset(0, e.ry)])
  {
  }

  /** The exception: a centre column without neighbours, and one row above and below. Pixels beside it get plotted. */
  lemma AstrayLeavesBox(e: Ellipse, arc: seq<Offset>)
    requires Astray(e) && e.IsArc(arc)
    ensures arc == [Offset(0, 1)] + [Offset(1, 0)]
  {
    NextAstray();
    FollowsFromTop(e);
    ExtendFollows(e, [Offset(0, 1)], Offset(1, 0));
    ArcIsUnique(e, arc, [Offset(0, 1)] + [Offset(1, 0)]);
  }

  // ----- The incremental midpoint values

  lemma SquareOf(n: int, k: int)
    ensures (2 * k) * (2 * k) == 4 * (k * k)
    ensures (2 * k + 1) * (2 * k + 1) == 4 * (k * k + k) + 1
  {
  }

  lemma SideMod4(a: nat, b: nat, u: int, v: int, r: int, t: nat)
    requires a % 4 == t && 0 <= t <= 1
    ensures (a * (4 * u + 1) + b * (4 * v) - 4 * r) % 4 == t
  {
    var k := a / 4;
    assert a == 4 * k + t;
    assert a * (4 * u + 1) == 4 * (a * u) + a;
    assert b * (4 * v) == 4 * (b * v);
    var m := a * u + k + b * v - r;
    assert a * (4 * u + 1) + b * (4 * v) - 4 * r == 4 * m + t;
  }

  /** The value of the midpoint between two candidates to the right is a whole number of fours and the parity of `rx`. */
  lemma FlatSideMod4(e: Ellipse, x: int, y: int)
    ensures e.Side(2 * x + 2, 2 * y - 1) % 4 == e.rx % 2
  {
    SquareMod4(e.rx);
    SquareOf(0, x + 1);
    SquareOf(0, y - 1);
    SideMod4(e.B(), e.A(), (y - 1) * (y - 1) + (y - 1), (x + 1) * (x + 1), e.A() * e.B(), e.rx % 2);
  }

  lemma SteepSideMod4(e: Ellipse, x: int, y: int)
    ensures e.Side(2 * x + 1, 2 * y - 2) % 4 == e.ry % 2
  {
    SquareMod4(e.ry);
    SquareOf(0, x);
    SquareOf(0, y - 1);
    SideMod4(e.A(), e.B(), x * x + x, (y - 1) * (y - 1), e.A() * e.B(), e.ry % 2);
  }

  /** `p` in the flat part: the midpoint value rounded down. */
  ghost predicate FlatP(e: Ellipse, x: int, y: int, p: int)
  {
    4 * p == e.Side(2 * x + 2, 2 * y - 1) - e.rx % 2
  }

  /** `p` in the steep part: the midpoint value rounded down. */
  ghost predicate SteepP(e: Ellipse, x: int, y: int, p: int)
  {
    4 * p == e.Side(2 * x + 1, 2 * y - 2) - e.ry % 2
  }

  lemma FirstFlatP(e: Ellipse, mode: Rounding)
    ensures FlatP(e, 0, e.ry, Lrint(mode, 4 * e.A() - 4 * (e.B() * e.ry) + e.B()))
  {
    FlatSideMod4(e, 0, e.ry);
    SideAtTop(e);
    var q := e.Side(2 * 0 + 2, 2 * e.ry - 1);
    LrintOfQuarter(mode, q, q / 4, q % 4);
  }

  lemma SideAtTop(e: Ellipse)
    ensures e.Side(2 * 0 + 2, 2 * e.ry - 1) == 4 * e.A() - 4 * (e.B() * e.ry) + e.B()
  {
    var a, b, v := e.A(), e.B(), 2 * e.ry - 1;
    assert v * v == 4 * a - 4 * e.ry + 1;
    assert b * (4 * a - 4 * e.ry + 1) == 4 * (a * b) - 4 * (b * e.ry) + b;
    assert a * (2 * 2) == 4 * a;
  }

  lemma FirstSteepP(e: Ellipse, x: int, y: int, mode: Rounding)
    ensures SteepP(e, x, y, Lrint(mode, e.Side(2 * x + 1, 2 * y - 2)))
  {
    SteepSideMod4(e, x, y);
    var q := e.Side(2 * x + 1, 2 * y - 2);
    LrintOfQuarter(mode, q, q / 4, q % 4);
  }

  /** One turn of the first loop computes the next pixel and its midpoint value. */
  lemma NextFlatP(e: Ellipse, x: int, y: int, p: int)
    requires FlatP(e, x, y, p) && e.Flat(x, y)
    ensures p < 0 ==> e.Next(Offset(x, y)) == Offset(x + 1, y)
                      && FlatP(e, x + 1, y, p + 2 * (e.A() * (x + 1)) + e.A())
    ensures p >= 0 ==> e.Next(Offset(x, y)) == Offset(x + 1, y - 1)
                       && FlatP(e, x + 1, y - 1, p + 2 * (e.A() * (x + 1)) - 2 * (e.B() * (y - 1)) + e.A())
  {
    SideRight(e, 2 * x + 2, 2 * y - 1);
    SideDown(e, 2 * x + 4, 2 * y - 1);
    Distribute(e.A(), x);
    Distribute(e.B(), y);
  }

  /** One turn of the second loop does the same in the steep part. */
  lemma NextSteepP(e: Ellipse, x: int, y: int, p: int)
    requires SteepP(e, x, y, p) && !e.Flat(x, y)
    ensures p > 0 ==> e.Next(Offset(x, y)) == Offset(x, y - 1)
                      && SteepP(e, x, y - 1, p + e.B() - 2 * (e.B() * (y - 1)))
    ensures p <= 0 ==> e.Next(Offset(x, y)) == Offset(x + 1, y - 1)
                       && SteepP(e, x + 1, y - 1, p + 2 * (e.A() * (x + 1)) - 2 * (e.B() * (y - 1)) + e.B())
  {
    SideDown(e, 2 * x + 1, 2 * y - 2);
    SideRight(e, 2 * x + 1, 2 * y - 4);
    Distribute(e.A(), x);
    Distribute(e.B(), y);
  }

  // ----- The painter

  datatype Tool = Pen | Brush

  datatype Dot = Dot(x: Coord, y: Coord, tool: Tool)

  /** The conversion of a coordinate to 16 bits. */
  function Cut(v: int): Coord { v % 0x1_0000 }

  /** The brush's pixels in two rows, from column `left` to column `right`. */
  function Span(left: int, right: int, top: int, bottom: int): seq<Dot>
    decreases right - left
  {
    if left > right then []
    else [Dot(Cut(left), Cut(bottom), Brush), Dot(Cut(left), Cut(top), Brush)] + Span(left + 1, right, top, bottom)
  }

  /** The pixels that one pixel of the quarter stands for. */
  function Symmetric(xc: int, yc: int, p: Offset, brushOn: bool, penOn: bool): seq<Dot>
  {
    (if brushOn then Span(xc - p.x, xc + p.x, yc - p.y, yc + p.y) else [])
    + if penOn then [Dot(Cut(xc + p.x), Cut(yc + p.y), Pen), Dot(Cut(xc - p.x), Cut(yc + p.y), Pen),
                     Dot(Cut(xc + p.x), Cut(yc - p.y), Pen), Dot(Cut(xc - p.x), Cut(yc - p.y), Pen)]
      else []
  }

  function Plots(xc: int, yc: int, arc: seq<Offset>, brushOn: bool, penOn: bool): seq<Dot>
    decreases |arc|
  {
    if arc == [] then []
    else Plots(xc, yc, arc[..|arc| - 1], brushOn, penOn) + Symmetric(xc, yc, arc[|arc| - 1], brushOn, penOn)
  }

  class Painter {
    const rounding: Rounding
    var brushOn: bool
    var penOn: bool
    var canvas: seq<Dot>

    constructor (rounding: Rounding, brushOn: bool, penOn: bool)
      ensures this.rounding == rounding && this.brushOn == brushOn && this.penOn == penOn && canvas == []
    {
      this.rounding := rounding;
      this.brushOn := brushOn;
      this.penOn := penOn;
      canvas := [];
    }

    method PutPixel(x: int, y: int, tool: Tool)
      modifies this`canvas
      ensures canvas == old(canvas) + [Dot(Cut(x), Cut(y), tool)]
    {
      canvas := canvas + [Dot(Cut(x), Cut(y), tool)];
    }

    method PlotRows(left: int, right: int, top: int, bottom: int)
      modifies this`canvas
      ensures canvas == old(canvas) + Span(left, right, top, bottom)
    {
      var ix := left;
      ghost var before, done, all := canvas, [], Span(left, right, top, bottom);
      while ix <= right
        invariant canvas == before + done && all == done + Span(ix, right, top, bottom)
        decreases right - ix
      {
        PutPixel(ix, bottom, Brush);
        PutPixel(ix, top, Brush);
        done := done + [Dot(Cut(ix), Cut(bottom), Brush), Dot(Cut(ix), Cut(top), Brush)];
        ix := ix + 1;
      }
      assert done == all;
    }

    method PlotSymmetrical(xc: int, yc: int, px: int, py: int)
      modifies this`canvas
      ensures canvas == old(canvas) + Symmetric(xc, yc, Offset(px, py), brushOn, penOn)
    {
      if brushOn {
        PlotRows(xc - px, xc + px, yc - py, yc + py);
      }
      if penOn {
        PutPixel(xc + px, yc + py, Pen);
        PutPixel(xc - px, yc + py, Pen);
        PutPixel(xc + px, yc - py, Pen);
        PutPixel(xc - px, yc - py, Pen);
      }
    }

    /** The first loop: to the right through the flat part, from midpoint value `p0`. */
    method PlotFlatPart(xc: int, yc: int, rx2: nat, ry2: nat, ry: nat, p0: int, ghost e: Ellipse)
      returns (x: int, y: int, dx: int, dy: int, ghost plotted: seq<Offset>)
      requires rx2 == e.B() && ry2 == e.A() && ry == e.ry && FlatP(e, 0, ry, p0)
      modifies this`canvas
      ensures 0 <= x && 0 <= y && dx == 2 * (ry2 * x) && dy == 2 * (rx2 * y) && dx >= dy
      ensures e.Follows(plotted + [Offset(x, y)])
      ensures canvas == old(canvas) + Plots(xc, yc, plotted, brushOn, penOn)
    {
      x, y, plotted := 0, ry, [];
      dx, dy := 2 * (ry2 * x), 2 * (rx2 * y);
      var p := p0;
      FollowsFromTop(e);
      while dx < dy
        invariant 0 <= x && 0 <= y <= ry && FlatP(e, x, y, p)
        invariant dx == 2 * (ry2 * x) && dy == 2 * (rx2 * y)
        invariant e.Follows(plotted + [Offset(x, y)])
        invariant canvas == old(canvas) + Plots(xc, yc, plotted, brushOn, penOn)
        decreases dy - dx
      {
        FlatHasHeight(e, x, y);
        PlotSymmetrical(xc, yc, x, y);
        NextFlatP(e, x, y, p);
        Distribute(ry2, x);
        Distribute(rx2, y);
        AddPlot(e, xc, yc, plotted, Offset(x, y), brushOn, penOn, old(canvas));
        plotted := plotted + [Offset(x, y)];
        if p < 0 {
          x := x + 1;
          dx := dx + 2 * ry2;
          p := p + (dx + ry2);
        } else {
          x := x + 1;
          y := y - 1;
          dx := dx + 2 * ry2;
          dy := dy - 2 * rx2;
          p := p + (dx - dy + ry2);
        }
      }
    }

    /** The second loop: down through the steep part to the middle row. */
    method PlotSteepPart(xc: int, yc: int, rx2: nat, ry2: nat, x0: int, y0: int, dx0: int, dy0: int, p0: int,
                         ghost e: Ellipse, ghost plotted0: seq<Offset>, ghost before: seq<Dot>)
      returns (ghost plotted: seq<Offset>)
      requires rx2 == e.B() && ry2 == e.A() && SteepP(e, x0, y0, p0)
      requires 0 <= x0 && 0 <= y0 && dx0 == 2 * (ry2 * x0) && dy0 == 2 * (rx2 * y0) && dx0 >= dy0
      requires e.Follows(plotted0 + [Offset(x0, y0)])
      requires canvas == before + Plots(xc, yc, plotted0, brushOn, penOn)
      modifies this`canvas
      ensures e.IsArc(plotted) && canvas == before + Plots(xc, yc, plotted, brushOn, penOn)
    {
      var x, y, dx, dy, p := x0, y0, dx0, dy0, p0;
      plotted := plotted0;
      while y >= 0
        invariant 0 <= x && -1 <= y && SteepP(e, x, y, p)
        invariant dx == 2 * (ry2 * x) && dy == 2 * (rx2 * y) && dx >= dy
        invariant if y >= 0 then e.Follows(plotted + [Offset(x, y)]) else e.IsArc(plotted)
        invariant canvas == before + Plots(xc, yc, plotted, brushOn, penOn)
        decreases y
      {
        PlotSymmetrical(xc, yc, x, y);
        NextSteepP(e, x, y, p);
        Distribute(ry2, x);
        Distribute(rx2, y);
        AddPlot(e, xc, yc, plotted, Offset(x, y), brushOn, penOn, before);
        plotted := plotted + [Offset(x, y)];
        if p > 0 {
          y := y - 1;
          dy := dy - 2 * rx2;
          p := p + (rx2 - dy);
        } else {
          x := x + 1;
          y := y - 1;
          dx := dx + 2 * ry2;
          dy := dy - 2 * rx2;
          p := p + (dx - dy + rx2);
        }
      }
    }

    /** Plots exactly the pixels of the midpoint rule, four for each pixel of the arc, and the brush's rows between them. */
    method DrawEllipse(left: Coord, top: Coord, width: Coord, height: Coord)
      modifies this`canvas
      ensures exists arc :: Ellipse(width / 2, height / 2).IsArc(arc)
                            && canvas == old(canvas) + Plots(left + width / 2, top + height / 2, arc, brushOn, penOn)
    {
      var rx, ry := width / 2, height / 2;
      var xc, yc := left + rx, top + ry;
      var rx2, ry2 := rx * rx, ry * ry;
      ghost var e := Ellipse(rx, ry);
      FirstFlatP(e, rounding);
      var x, y, dx, dy, plotted :=
        PlotFlatPart(xc, yc, rx2, ry2, ry, Lrint(rounding, 4 * ry2 - 4 * (rx2 * ry) + rx2), e);
      FirstSteepP(e, x, y, rounding);
      var quarters := ry2 * ((2 * x + 1) * (2 * x + 1)) + rx2 * ((2 * y - 2) * (2 * y - 2)) - 4 * (ry2 * rx2);
      plotted := PlotSteepPart(xc, yc, rx2, ry2, x, y, dx, dy, Lrint(rounding, quarters), e, plotted, old(canvas));
    }
  }

  lemma FlatHasHeight(e: Ellipse, x: int, y: int)
    requires 0 <= x && y <= e.ry && e.Flat(x, y)
    ensures y > 0 && e.A() >= 1
  {
    assert e.A() * x >= 0;
    if y <= 0 {
      MulMonotone(e.B(), y, 0);
    }
    MulMonotone(e.ry, 1, e.ry);
  }

  /** Plotting the next pixel of the arc, and the step to the one after it. */
  lemma AddPlot(e: Ellipse, xc: int, yc: int, plotted: seq<Offset>, p: Offset, brushOn: bool, penOn: bool, before: seq<Dot>)
    requires e.Follows(plotted + [p])
    ensures before + Plots(xc, yc, plotted, brushOn, penOn) + Symmetric(xc, yc, p, brushOn, penOn)
         == before + Plots(xc, yc, plotted + [p], brushOn, penOn)
    ensures e.Follows(plotted + [p] + [e.Next(p)])
    ensures p.y == 0 ==> e.IsArc(plotted + [p])
  {
    PlotsOfLonger(xc, yc, plotted, p, brushOn, penOn);
    var a, b := Plots(xc, yc, plotted, brushOn, penOn), Symmetric(xc, yc, p, brushOn, penOn);
    assert before + a + b == before + (a + b);
    ExtendFollows(e, plotted + [p], e.Next(p));
  }

  lemma PlotsOfLonger(xc: int, yc: int, arc: seq<Offset>, p: Offset, brushOn: bool, penOn: bool)
    ensures Plots(xc, yc, arc + [p], brushOn, penOn)
         == Plots(xc, yc, arc, brushOn, penOn) + Symmetric(xc, yc, p, brushOn, penOn)
  {
    assert (arc + [p])[..|arc|] == arc;
  }

  // ----- What ends up on the canvas

  lemma CutSmall(v: int)
    requires 0 <= v < 0x1_0000
    ensures Cut(v) == v
  {
  }

  lemma {:induction false} SpanDots(left: int, right: int, top: Coord, bottom: Coord, d: Dot)
    requires 0 <= left && right < 0x1_0000 && d in Span(left, right, top, bottom)
    ensures left <= d.x <= right && (d.y == top || d.y == bottom)
    decreases right - left
  {
    var first := [Dot(Cut(left), Cut(bottom), Brush), Dot(Cut(left), Cut(top), Brush)];
    if d in Span(left + 1, right, top, bottom) {
      SpanDots(left + 1, right, top, bottom, d);
    } else {
      assert Span(left, right, top, bottom) == first + Span(left + 1, right, top, bottom);
      assert d in first;
      CutSmall(left);
      CutSmall(top);
      CutSmall(bottom);
    }
  }

  lemma SymmetricDots(xc: int, yc: int, p: Offset, brushOn: bool, penOn: bool, d: Dot)
    requires 0 <= p.x && 0 <= p.y
    requires 0 <= xc - p.x && xc + p.x < 0x1_0000 && 0 <= yc - p.y && yc + p.y < 0x1_0000
    requires d in Symmetric(xc, yc, p, brushOn, penOn)
    ensures xc - p.x <= d.x <= xc + p.x && yc - p.y <= d.y <= yc + p.y
  {
    if brushOn && d in Span(xc - p.x, xc + p.x, yc - p.y, yc + p.y) {
      SpanDots(xc - p.x, xc + p.x, yc - p.y, yc + p.y, d);
    } else {
      CutSmall(xc - p.x);
      CutSmall(xc + p.x);
      CutSmall(yc - p.y);
      CutSmall(yc + p.y);
    }
  }

  /** The pen's four pixels: the reflections of a pixel of the arc. */
  predicate IsPenDot(xc: int, yc: int, p: Offset, d: Dot)
  {
    && d.tool == Pen
    && (d.x == Cut(xc + p.x) || d.x == Cut(xc - p.x))
    && (d.y == Cut(yc + p.y) || d.y == Cut(yc - p.y))
  }

  /** The brush's pixels: the columns between them, in both rows. */
  ghost predicate IsBrushDot(xc: int, yc: int, p: Offset, d: Dot)
  {
    && d.tool == Brush
    && (d.y == Cut(yc + p.y) || d.y == Cut(yc - p.y))
    && exists i :: xc - p.x <= i <= xc + p.x && d.x == Cut(i)
  }

  lemma {:induction false} SpanIs(left: int, right: int, top: int, bottom: int, d: Dot)
    ensures d in Span(left, right, top, bottom)
       <==> d.tool == Brush && (d.y == Cut(top) || d.y == Cut(bottom)) && exists i :: left <= i <= right && d.x == Cut(i)
    decreases right - left
  {
    if left <= right {
      SpanIs(left + 1, right, top, bottom, d);
      var ends := [Dot(Cut(left), Cut(bottom), Brush), Dot(Cut(left), Cut(top), Brush)];
      assert ends[0] in ends && ends[1] in ends;
      assert d in Span(left, right, top, bottom) <==> d in ends || d in Span(left + 1, right, top, bottom);
    }
  }

  lemma PensAre(xc: int, yc: int, p: Offset, d: Dot)
    ensures d in Symmetric(xc, yc, p, false, true) <==> IsPenDot(xc, yc, p, d)
  {
    var dots := Symmetric(xc, yc, p, false, true);
    assert |dots| == 4 && dots[0] in dots && dots[1] in dots && dots[2] in dots && dots[3] in dots;
  }

  /** What one pixel of the arc stands for, with the pen, with the brush, or with both. */
  lemma SymmetricIs(xc: int, yc: int, p: Offset, brushOn: bool, penOn: bool, d: Dot)
    ensures d in Symmetric(xc, yc, p, brushOn, penOn)
       <==> (penOn && IsPenDot(xc, yc, p, d)) || (brushOn && IsBrushDot(xc, yc, p, d))
  {
    PensAre(xc, yc, p, d);
    SpanIs(xc - p.x, xc + p.x, yc - p.y, yc + p.y, d);
    var brush := if brushOn then Span(xc - p.x, xc + p.x, yc - p.y, yc + p.y) else [];
    var pen := if penOn then Symmetric(xc, yc, p, false, true) else [];
    assert Symmetric(xc, yc, p, brushOn, penOn) == brush + pen;
  }

  lemma {:induction false} SomePixel(xc: int, yc: int, arc: seq<Offset>, brushOn: bool, penOn: bool, d: Dot)
    requires d in Plots(xc, yc, arc, brushOn, penOn)
    ensures exists k: nat :: k < |arc| && d in Symmetric(xc, yc, arc[k], brushOn, penOn)
    decreases |arc|
  {
    var n := |arc| - 1;
    if d !in Symmetric(xc, yc, arc[n], brushOn, penOn) {
      SomePixel(xc, yc, arc[..n], brushOn, penOn, d);
      var k: nat :| k < n && d in Symmetric(xc, yc, arc[..n][k], brushOn, penOn);
      assert arc[k] == arc[..n][k];
    }
  }

  /**
   Exactly what is plotted: with the pen on, the four reflections of every
   pixel of the arc; with the brush on, all columns between them in both rows.
   */
  lemma PlotsAre(xc: int, yc: int, arc: seq<Offset>, brushOn: bool, penOn: bool, d: Dot)
    ensures d in Plots(xc, yc, arc, brushOn, penOn)
       <==> exists k: nat :: k < |arc| && ((penOn && IsPenDot(xc, yc, arc[k], d)) || (brushOn && IsBrushDot(xc, yc, arc[k], d)))
  {
    if d in Plots(xc, yc, arc, brushOn, penOn) {
      SomePixel(xc, yc, arc, brushOn, penOn, d);
      var k: nat :| k < |arc| && d in Symmetric(xc, yc, arc[k], brushOn, penOn);
      SymmetricIs(xc, yc, arc[k], brushOn, penOn, d);
    }
    forall k: nat | k < |arc| && ((penOn && IsPenDot(xc, yc, arc[k], d)) || (brushOn && IsBrushDot(xc, yc, arc[k], d)))
      ensures d in Plots(xc, yc, arc, brushOn, penOn)
    {
      SymmetricIs(xc, yc, arc[k], brushOn, penOn, d);
      PixelIsPlotted(xc, yc, arc, brushOn, penOn, k, d);
    }
  }

  /** For each pixel of the arc the pen comes after the brush, so its pixels stay on top of those in the same rows. */
  lemma PenComesLast(xc: int, yc: int, p: Offset, brushOn: bool)
    ensures var dots := Symmetric(xc, yc, p, brushOn, true);
      var n := |dots| - 4;
      n >= 0 && (forall k :: n <= k < |dots| ==> dots[k].tool == Pen) && (forall k :: 0 <= k < n ==> dots[k].tool == Brush)
  {
    var span := Span(xc - p.x, xc + p.x, yc - p.y, yc + p.y);
    forall k | 0 <= k < |span|
      ensures span[k].tool == Brush
    {
      SpanIs(xc - p.x, xc + p.x, yc - p.y, yc + p.y, span[k]);
    }
  }

  /** Nothing is plotted further from the centre than the arc goes, if that is inside the range of coordinates. */
  lemma {:induction false} DotsInBox(e: Ellipse, arc: seq<Offset>, w: nat, xc: int, yc: int, brushOn: bool, penOn: bool, d: Dot)
    requires e.Follows(arc) && arc[|arc| - 1].y >= 0 && !Astray(e) && arc[|arc| - 1].x <= w
    requires 0 <= xc - w && xc + w < 0x1_0000 && 0 <= yc - e.ry && yc + e.ry < 0x1_0000
    requires d in Plots(xc, yc, arc, brushOn, penOn)
    ensures xc - w <= d.x <= xc + w && yc - e.ry <= d.y <= yc + e.ry
    decreases |arc|
  {
    var n := |arc| - 1;
    ArcPixel(e, arc, n);
    if d in Symmetric(xc, yc, arc[n], brushOn, penOn) {
      SymmetricDots(xc, yc, arc[n], brushOn, penOn, d);
    } else {
      ArcPixel(e, arc, n - 1);
      assert d in Plots(xc, yc, arc[..n], brushOn, penOn);
      DotsInBox(e, arc[..n], w, xc, yc, brushOn, penOn, d);
    }
  }

  /** The four corners of what a pixel of the arc stands for are plotted, by the pen or else by the brush. */
  lemma CornersAreDots(xc: int, yc: int, p: Offset, brushOn: bool, penOn: bool)
    requires brushOn || penOn
    requires p.x >= 0
    ensures var tool := if penOn then Pen else Brush;
      && Dot(Cut(xc + p.x), Cut(yc + p.y), tool) in Symmetric(xc, yc, p, brushOn, penOn)
      && Dot(Cut(xc + p.x), Cut(yc - p.y), tool) in Symmetric(xc, yc, p, brushOn, penOn)
  {
    if penOn {
      PenCorners(xc, yc, p, brushOn);
    } else {
      RightEndInSpan(xc - p.x, xc + p.x, yc - p.y, yc + p.y);
    }
  }

  lemma PenCorners(xc: int, yc: int, p: Offset, brushOn: bool)
    ensures Dot(Cut(xc + p.x), Cut(yc + p.y), Pen) in Symmetric(xc, yc, p, brushOn, true)
    ensures Dot(Cut(xc + p.x), Cut(yc - p.y), Pen) in Symmetric(xc, yc, p, brushOn, true)
  {
    var dots := Symmetric(xc, yc, p, brushOn, true);
    var n := |dots|;
    assert dots[n - 4] == Dot(Cut(xc + p.x), Cut(yc + p.y), Pen) && dots[n - 2] == Dot(Cut(xc + p.x), Cut(yc - p.y), Pen);
  }

  lemma {:induction false} RightEndInSpan(left: int, right: int, top: int, bottom: int)
    requires left <= right
    ensures Dot(Cut(right), Cut(bottom), Brush) in Span(left, right, top, bottom)
    ensures Dot(Cut(right), Cut(top), Brush) in Span(left, right, top, bottom)
    decreases right - left
  {
    if left < right {
      RightEndInSpan(left + 1, right, top, bottom);
    } else {
      var ends := [Dot(Cut(left), Cut(bottom), Brush), Dot(Cut(left), Cut(top), Brush)];
      assert Span(left, right, top, bottom) == ends;
      assert ends[0] in ends && ends[1] in ends;
    }
  }

  /** Every row of the box gets a pixel. */
  lemma RowIsPlotted(e: Ellipse, arc: seq<Offset>, xc: int, yc: int, brushOn: bool, penOn: bool, row: int)
    requires e.IsArc(arc) && !Astray(e) && (brushOn || penOn) && yc - e.ry <= row <= yc + e.ry
    ensures exists d :: d in Plots(xc, yc, arc, brushOn, penOn) && d.y == Cut(row)
  {
    var k := RowReached(e, arc, if row < yc then yc - row else row - yc);
    ArcPixel(e, arc, k);
    CornersAreDots(xc, yc, arc[k], brushOn, penOn);
    PixelIsPlotted(xc, yc, arc, brushOn, penOn, k, Dot(Cut(xc + arc[k].x), Cut(row), if penOn then Pen else Brush));
  }

  // ----- The rectangle that is passed

  predicate Inside(left: int, top: int, width: int, height: int, d: Dot)
  {
    left <= d.x < left + width && top <= d.y < top + height
  }

  /** What the rectangle's size, of `i` columns and `j` rows more than twice the radii, says about pixels beside it. */
  predicate Spills(e: Ellipse, i: nat, j: nat)
  {
    j == 0 || Astray(e) || (i == 0 && ReachesTip(e))
  }

  /** The last row of the box. */
  lemma DotBelow(e: Ellipse, arc: seq<Offset>, xc: int, yc: int, brushOn: bool, penOn: bool, row: Coord) returns (d: Dot)
    requires e.IsArc(arc) && !Astray(e) && (brushOn || penOn) && row == yc + e.ry
    ensures d in Plots(xc, yc, arc, brushOn, penOn) && d.y == row
  {
    RowIsPlotted(e, arc, xc, yc, brushOn, penOn, row);
    d :| d in Plots(xc, yc, arc, brushOn, penOn) && d.y == Cut(row);
    CutSmall(row);
  }

  /** The far end of the arc is plotted. */
  lemma LastDot(xc: int, yc: int, arc: seq<Offset>, brushOn: bool, penOn: bool, v: int) returns (d: Dot)
    requires arc != [] && arc[|arc| - 1].x >= 0 && (brushOn || penOn) && v == xc + arc[|arc| - 1].x
    ensures d in Plots(xc, yc, arc, brushOn, penOn) && (0 <= v < 0x1_0000 ==> d.x == v)
  {
    var last := arc[|arc| - 1];
    CornersAreDots(xc, yc, last, brushOn, penOn);
    d := Dot(Cut(xc + last.x), Cut(yc + last.y), if penOn then Pen else Brush);
    PixelIsPlotted(xc, yc, arc, brushOn, penOn, |arc| - 1, d);
    if 0 <= v < 0x1_0000 {
      CutSmall(v);
    }
  }

  lemma LastColumn(e: Ellipse, i: nat, arc: seq<Offset>) returns (x: nat)
    requires i < 2 && e.IsArc(arc) && (Astray(e) || (i == 0 && ReachesTip(e)))
    ensures x == arc[|arc| - 1].x && (e.rx + x == 2 * e.rx + i || (2 * e.rx + i == 0 && x == 1))
  {
    if Astray(e) {
      AstrayLeavesBox(e, arc);
      x := 1;
    } else {
      TipIsReached(e, arc);
      x := e.rx;
    }
  }

  /** Some dot is outside. */
  ghost predicate AnyOutside(left: int, top: int, width: int, height: int, dots: seq<Dot>)
  {
    exists d :: d in dots && !Inside(left, top, width, height, d)
  }

  lemma OutsideBelow(left: int, top: int, rx: nat, ry: nat, i: nat, dots: seq<Dot>, d: Dot)
    requires d in dots && d.y == top + 2 * ry
    ensures AnyOutside(left, top, 2 * rx + i, 2 * ry, dots)
  {
    assert !Inside(left, top, 2 * rx + i, 2 * ry, d);
  }

  lemma OutsideRight(left: int, top: int, rx: nat, ry: nat, i: nat, j: nat, dots: seq<Dot>, d: Dot)
    requires d in dots && (d.x == left + 2 * rx + i || 2 * rx + i == 0)
    ensures AnyOutside(left, top, 2 * rx + i, 2 * ry + j, dots)
  {
    assert !Inside(left, top, 2 * rx + i, 2 * ry + j, d);
  }

  ghost predicate AllWithin(xc: int, yc: int, w: nat, h: nat, dots: seq<Dot>)
  {
    forall d :: d in dots ==> xc - w <= d.x <= xc + w && yc - h <= d.y <= yc + h
  }

  lemma NoneOutside(left: int, top: int, rx: nat, ry: nat, i: nat, w: nat, dots: seq<Dot>)
    requires w <= rx && (i == 1 || w < rx) && AllWithin(left + rx, top + ry, w, ry, dots)
    ensures !AnyOutside(left, top, 2 * rx + i, 2 * ry + 1, dots)
  {
  }

  lemma AllDotsInBox(e: Ellipse, arc: seq<Offset>, w: nat, xc: int, yc: int, brushOn: bool, penOn: bool)
    requires e.Follows(arc) && arc[|arc| - 1].y >= 0 && !Astray(e) && arc[|arc| - 1].x <= w
    requires 0 <= xc - w && xc + w < 0x1_0000 && 0 <= yc - e.ry && yc + e.ry < 0x1_0000
    ensures AllWithin(xc, yc, w, e.ry, Plots(xc, yc, arc, brushOn, penOn))
  {
    var dots := Plots(xc, yc, arc, brushOn, penOn);
    forall d | d in dots
      ensures xc - w <= d.x <= xc + w && yc - e.ry <= d.y <= yc + e.ry
    {
      DotsInBox(e, arc, w, xc, yc, brushOn, penOn, d);
    }
  }

  lemma LeavesBox(left: Coord, top: Coord, e: Ellipse, i: nat, j: nat, arc: seq<Offset>, brushOn: bool, penOn: bool,
                  xc: int, yc: int)
    requires i < 2 && j < 2 && left + 2 * e.rx + i < 0x1_0000 && top + 2 * e.ry + j < 0x1_0000 && (brushOn || penOn)
    requires e.IsArc(arc) && xc == left + e.rx && yc == top + e.ry
    ensures AnyOutside(left, top, 2 * e.rx + i, 2 * e.ry + j, Plots(xc, yc, arc, brushOn, penOn)) <==> Spills(e, i, j)
  {
    var dots := Plots(xc, yc, arc, brushOn, penOn);
    if j == 0 && !Astray(e) {
      var d := DotBelow(e, arc, xc, yc, brushOn, penOn, top + 2 * e.ry);
      OutsideBelow(left, top, e.rx, e.ry, i, dots, d);
    } else if Spills(e, i, j) {
      var x := LastColumn(e, i, arc);
      var d := LastDot(xc, yc, arc, brushOn, penOn, xc + x);
      OutsideRight(left, top, e.rx, e.ry, i, j, dots, d);
    } else {
      var w := WidthOfArc(e, arc);
      AllDotsInBox(e, arc, w, xc, yc, brushOn, penOn);
      NoneOutside(left, top, e.rx, e.ry, i, w, dots);
    }
  }

  lemma WidthOfArc(e: Ellipse, arc: seq<Offset>) returns (w: nat)
    requires e.IsArc(arc) && !Astray(e)
    ensures w == arc[|arc| - 1].x <= e.rx && (w < e.rx <==> !ReachesTip(e))
  {
    ArcPixel(e, arc, |arc| - 1);
    TipIsReached(e, arc);
    w := arc[|arc| - 1].x;
  }

  /**
   The ellipse leaves the rectangle that is passed exactly if that has an even
   number of rows, or an even number of columns and is not too flat, or is one
   of those without width that lead astray: with an even number of pixels there
   is one more on the far side of the centre than there is room for.
   */
  lemma LeavesRectangle(left: Coord, top: Coord, width: nat, height: nat, arc: seq<Offset>, brushOn: bool, penOn: bool)
    requires left + width < 0x1_0000 && top + height < 0x1_0000 && (brushOn || penOn)
    requires Ellipse(width / 2, height / 2).IsArc(arc)
    ensures AnyOutside(left, top, width, height, Plots(left + width / 2, top + height / 2, arc, brushOn, penOn))
       <==> Spills(Ellipse(width / 2, height / 2), width % 2, height % 2)
  {
    var e := Ellipse(width / 2, height / 2);
    assert width == 2 * e.rx + width % 2 && height == 2 * e.ry + height % 2;
    LeavesBox(left, top, e, width % 2, height % 2, arc, brushOn, penOn, left + e.rx, top + e.ry);
  }

  lemma {:induction false} PixelIsPlotted(xc: int, yc: int, arc: seq<Offset>, brushOn: bool, penOn: bool, k: nat, d: Dot)
    requires k < |arc| && d in Symmetric(xc, yc, arc[k], brushOn, penOn)
    ensures d in Plots(xc, yc, arc, brushOn, penOn)
    decreases |arc|
  {
    if k < |arc| - 1 {
      PixelIsPlotted(xc, yc, arc[..|arc| - 1], brushOn, penOn, k, d);
    }
  }
}
