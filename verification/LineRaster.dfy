/** The error-accumulator line of the generic painter. */
module LineRaster {
  import opened Numbers

  type Coord = c: int | 0 <= c < 0x1_0000
  type Int32 = i: int | -0x8000_0000 <= i < 0x8000_0000

  datatype Point = Point(x: Coord, y: Coord)

  function Step(from: int, to: int): int { if from < to then 1 else -1 }

  /** `n * x` */
  function Times(n: nat, x: nat): nat
  {
    if n == 0 then 0 else Times(n - 1, x) + x
  }

  lemma {:induction false} TimesIsProduct(n: nat, x: nat)
    ensures Times(n, x) == n * x
  {
    if n > 0 {
      TimesIsProduct(n - 1, x);
      assert n * x == (n - 1) * x + x;
    }
  }

  lemma {:induction false} TimesApart(a: nat, b: nat, x: nat)
    requires a < b
    ensures Times(a, x) + x <= Times(b, x)
    decreases b
  {
    if a < b - 1 {
      TimesApart(a, b - 1, x);
    }
  }

  lemma TimesCommutes(a: nat, b: nat)
    ensures Times(a, b) == Times(b, a)
  {
    TimesIsProduct(a, b);
    TimesIsProduct(b, a);
  }

  /** `j` is `k * minor / major` rounded to the nearest integer, halves upwards. */
  predicate Nearest(k: nat, j: nat, minor: nat, major: nat)
  {
    0 - major < 2 * (Times(j, major) - Times(k, minor)) <= major
  }

  /** The minor coordinate of point `k` of a line that is `major` long. */
  function MinorAt(k: nat, minor: nat, major: nat): nat
  {
    if major == 0 then 0 else (2 * Times(k, minor) + major) / (2 * major)
  }

  lemma MinorAtIsNearest(k: nat, minor: nat, major: nat)
    requires 0 < major
    ensures Nearest(k, MinorAt(k, minor, major), minor, major)
  {
    var n := 2 * Times(k, minor) + major;
    var j := n / (2 * major);
    TimesIsProduct(j, major);
    assert n == 2 * major * j + n % (2 * major);
    assert 2 * major * j == 2 * (j * major);
  }

  lemma NearestIsUnique(k: nat, j: nat, j': nat, minor: nat, major: nat)
    requires Nearest(k, j, minor, major) && Nearest(k, j', minor, major)
    ensures j == j'
  {
    if j < j' {
      TimesApart(j, j', major);
    } else if j' < j {
      TimesApart(j', j, major);
    }
  }

  lemma NearestIsMinorAt(k: nat, j: nat, minor: nat, major: nat)
    requires Nearest(k, j, minor, major)
    ensures j == MinorAt(k, minor, major)
  {
    MinorAtIsNearest(k, minor, major);
    NearestIsUnique(k, j, MinorAt(k, minor, major), minor, major);
  }

  lemma NearestEnds(minor: nat, major: nat)
    requires 0 < major
    ensures Nearest(0, 0, minor, major)
    ensures Nearest(major, minor, minor, major)
  {
    TimesCommutes(minor, major);
  }

  // ----- The line

  /** From (`x`, `y`), `w` columns in direction `sx` and `h` rows in direction `sy`; the directions are 1 or -1. */
  datatype Line = Line(x: int, y: int, sx: int, sy: int, w: nat, h: nat) {

    function Steps(): nat { if w < h then h else w }

    function MinorLength(): nat { if w < h then w else h }

    /** After `k` steps the line has gone `i` columns and `j` rows. */
    ghost predicate Reaches(i: int, j: int, k: nat)
    {
      && 0 <= i && 0 <= j && k <= Steps()
      && if w == 0 && h == 0 then i == 0 && j == 0
         else if w >= h then i == k && Nearest(k, j, h, w)
         else j == k && Nearest(k, i, w, h)
    }

    /** Whether `p` is where the line is after `k` steps. */
    ghost predicate HasPoint(k: nat, p: Point)
    {
      Reaches(Along(sx, p.x - x), Along(sy, p.y - y), k)
    }

    /** The points are the first ones of the line. */
    ghost predicate StartsWith(points: seq<Point>)
      decreases |points|
    {
      points == [] || (StartsWith(points[..|points| - 1]) && HasPoint(|points| - 1, points[|points| - 1]))
    }

    ghost predicate AddedTo(before: seq<Point>, after: seq<Point>)
    {
      exists points :: after == before + points && Is(points)
    }

    /** Exactly the pixels nearest to the ideal line, one for each step along its major axis. */
    ghost predicate Is(points: seq<Point>)
    {
      |points| == Steps() + 1 && StartsWith(points)
    }
  }

  /** `i` steps in direction `s`. */
  function Along(s: int, i: int): int
  {
    if s == 1 then i else -i
  }

  function LineBetween(a: Point, b: Point): Line
  {
    Line(a.x, a.y, Step(a.x, b.x), Step(a.y, b.y), Abs(b.x - a.x), Abs(b.y - a.y))
  }

  // ----- What the line looks like

  /** The minor coordinate never runs past the end. */
  lemma NearestInRange(k: nat, j: nat, minor: nat, major: nat)
    requires k <= major && Nearest(k, j, minor, major)
    ensures j <= minor
  {
    TimesCommutes(minor, major);
    if k < major {
      TimesApart(k, major, minor);
    }
    if minor < j {
      TimesApart(minor, j, major);
    }
  }

  /** From one point to the next, the minor coordinate stays or moves by one. */
  lemma NearestSteps(k: nat, j: nat, j': nat, minor: nat, major: nat)
    requires minor <= major && Nearest(k, j, minor, major) && Nearest(k + 1, j', minor, major)
    ensures j <= j' <= j + 1
  {
    if j' < j {
      TimesApart(j', j, major);
    } else if j + 1 < j' {
      TimesApart(j + 1, j', major);
    }
  }

  lemma {:induction false} PointOfLine(l: Line, points: seq<Point>, k: nat)
    requires l.StartsWith(points) && k < |points|
    ensures l.HasPoint(k, points[k])
    decreases |points|
  {
    if k < |points| - 1 {
      PointOfLine(l, points[..|points| - 1], k);
    }
  }

  lemma ReachesEnds(l: Line, i: nat, j: nat, k: nat)
    requires l.Reaches(i, j, k)
    ensures i <= l.w && j <= l.h
    ensures k == 0 ==> i == 0 && j == 0
    ensures k == l.Steps() <==> i == l.w && j == l.h
  {
    var m, n := l.Steps(), l.MinorLength();
    if m > 0 {
      var along := if l.w >= l.h then j else i;
      NearestEnds(n, m);
      NearestInRange(k, along, n, m);
      if k == 0 {
        NearestIsUnique(0, along, 0, n, m);
      } else if k == m {
        NearestIsUnique(k, along, n, n, m);
      }
    }
  }

  lemma LineEnds(a: Point, b: Point, points: seq<Point>)
    requires LineBetween(a, b).Is(points)
    ensures points[0] == a && points[|points| - 1] == b
  {
    var l, p, q := LineBetween(a, b), points[0], points[|points| - 1];
    PointOfLine(l, points, 0);
    PointOfLine(l, points, |points| - 1);
    ReachesEnds(l, Along(l.sx, p.x - l.x), Along(l.sy, p.y - l.y), 0);
    ReachesEnds(l, Along(l.sx, q.x - l.x), Along(l.sy, q.y - l.y), |points| - 1);
  }

  /** There is only one such line. */
  lemma LineIsUnique(l: Line, points: seq<Point>, others: seq<Point>)
    requires l.Is(points) && l.Is(others)
    ensures points == others
  {
    forall k: nat | k < |points|
      ensures points[k] == others[k]
    {
      PointOfLine(l, points, k);
      PointOfLine(l, others, k);
      PointIsUnique(l, points[k], others[k], k);
    }
  }

  lemma PointIsUnique(l: Line, p: Point, q: Point, k: nat)
    requires l.HasPoint(k, p) && l.HasPoint(k, q)
    ensures p == q
  {
    if l.Steps() > 0 {
      if l.w >= l.h {
        NearestIsUnique(k, Along(l.sy, p.y - l.y), Along(l.sy, q.y - l.y), l.h, l.w);
      } else {
        NearestIsUnique(k, Along(l.sx, p.x - l.x), Along(l.sx, q.x - l.x), l.w, l.h);
      }
    }
  }

  /** Twice the distance of a point from the ideal line, along the minor axis, times the length. */
  ghost function Deviation(a: Point, b: Point, p: Point): int
  {
    2 * (Times(Abs(p.x - a.x), Abs(b.y - a.y)) - Times(Abs(p.y - a.y), Abs(b.x - a.x)))
  }

  /** No point is more than half a pixel from the ideal line, nor outside the box that the end points span. */
  lemma LineIsClose(a: Point, b: Point, points: seq<Point>, k: nat)
    requires LineBetween(a, b).Is(points) && k < |points|
    ensures Abs(Deviation(a, b, points[k])) <= LineBetween(a, b).Steps()
    ensures a.x <= points[k].x <= b.x || b.x <= points[k].x <= a.x
    ensures a.y <= points[k].y <= b.y || b.y <= points[k].y <= a.y
  {
    PointOfLine(LineBetween(a, b), points, k);
    PointInBox(a, b, points[k], k);
    PointIsClose(a, b, points[k], k);
  }

  lemma PointInBox(a: Point, b: Point, p: Point, k: nat)
    requires LineBetween(a, b).HasPoint(k, p)
    ensures a.x <= p.x <= b.x || b.x <= p.x <= a.x
    ensures a.y <= p.y <= b.y || b.y <= p.y <= a.y
  {
    var l := LineBetween(a, b);
    ReachesEnds(l, Along(l.sx, p.x - l.x), Along(l.sy, p.y - l.y), k);
  }

  lemma PointIsClose(a: Point, b: Point, p: Point, k: nat)
    requires LineBetween(a, b).HasPoint(k, p)
    ensures Abs(Deviation(a, b, p)) <= LineBetween(a, b).Steps()
  {
    var l := LineBetween(a, b);
    assert Along(l.sx, p.x - l.x) == Abs(p.x - a.x) && Along(l.sy, p.y - l.y) == Abs(p.y - a.y) by {
      PointInBox(a, b, p, k);
    }
  }

  /** `n` steps from `from` in the direction of `to`. */
  function Toward(from: int, to: int, n: nat): int { if from < to then from + n else from - n }

  /** `k * minor / major` rounded, halves upwards. */
  function Rounded(k: nat, minor: nat, major: nat): nat
    requires major > 0
  {
    (2 * (k * minor) + major) / (2 * major)
  }

  lemma NearestIsRounded(k: nat, j: nat, minor: nat, major: nat)
    requires 0 < major && Nearest(k, j, minor, major)
    ensures j == Rounded(k, minor, major)
  {
    NearestIsMinorAt(k, j, minor, major);
    TimesIsProduct(k, minor);
  }

  /** Every point in closed form: a point half-way between two pixels goes to the one further from the start. */
  lemma LinePoint(a: Point, b: Point, points: seq<Point>, k: nat)
    requires LineBetween(a, b).Is(points) && k < |points|
    ensures var w, h := Abs(b.x - a.x), Abs(b.y - a.y);
      && |points| == Max(w, h) + 1
      && (w == 0 && h == 0 ==> points[k] == a)
      && (w >= h && w > 0 ==> points[k].x == Toward(a.x, b.x, k) && points[k].y == Toward(a.y, b.y, Rounded(k, h, w)))
      && (w < h ==> points[k].y == Toward(a.y, b.y, k) && points[k].x == Toward(a.x, b.x, Rounded(k, w, h)))
  {
    var l, p := LineBetween(a, b), points[k];
    PointOfLine(l, points, k);
    var i, j := Along(l.sx, p.x - l.x), Along(l.sy, p.y - l.y);
    if l.w >= l.h && l.w > 0 {
      NearestIsRounded(k, j, l.h, l.w);
    } else if l.w < l.h {
      NearestIsRounded(k, i, l.w, l.h);
    }
  }

  /** Each point is one step along the major axis from the one before, and at most one along the minor axis. */
  lemma LineIsConnected(l: Line, points: seq<Point>, k: nat)
    requires l.Is(points) && k + 1 < |points|
    ensures var (i, j) := (Along(l.sx, points[k + 1].x - points[k].x), Along(l.sy, points[k + 1].y - points[k].y));
            0 <= i <= 1 && 0 <= j <= 1 && (if l.w >= l.h then i == 1 else j == 1)
  {
    PointOfLine(l, points, k);
    PointOfLine(l, points, k + 1);
    NextPoint(l, points[k], points[k + 1], k);
  }

  lemma NextPoint(l: Line, p: Point, q: Point, k: nat)
    requires l.HasPoint(k, p) && l.HasPoint(k + 1, q)
    ensures var (i, j) := (Along(l.sx, q.x - p.x), Along(l.sy, q.y - p.y));
            0 <= i <= 1 && 0 <= j <= 1 && (if l.w >= l.h then i == 1 else j == 1)
  {
    var (i, j) := (Along(l.sx, p.x - l.x), Along(l.sy, p.y - l.y));
    var (i', j') := (Along(l.sx, q.x - l.x), Along(l.sy, q.y - l.y));
    assert i' - i == Along(l.sx, q.x - p.x) && j' - j == Along(l.sy, q.y - p.y);
    if l.w >= l.h {
      NearestSteps(k, j, j', l.h, l.w);
    } else {
      NearestSteps(k, i, i', l.w, l.h);
    }
  }

  /** The ideal line passes half-way between two pixels at step `k`. */
  predicate HalfWay(k: nat, minor: nat, major: nat)
  {
    major > 0 && (2 * Times(k, minor) + major) % (2 * major) == 0
  }

  lemma HalfWayIsRoundedUp(k: nat, minor: nat, major: nat)
    requires 0 < major
    ensures HalfWay(k, minor, major) <==> 2 * (Times(MinorAt(k, minor, major), major) - Times(k, minor)) == major
  {
    var n := 2 * Times(k, minor) + major;
    var j := n / (2 * major);
    TimesIsProduct(j, major);
    assert n == 2 * major * j + n % (2 * major);
    assert 2 * major * j == 2 * (j * major);
  }

  /** Counted from the other end, a coordinate is rounded the other way. */
  lemma MinorReversed(minor: nat, major: nat, k: nat)
    requires 0 < major && k <= major
    ensures minor - MinorAt(major - k, minor, major) == MinorAt(k, minor, major) <==> !HalfWay(k, minor, major)
  {
    var j := MinorAt(k, minor, major);
    HalfWayIsRoundedUp(k, minor, major);
    MinorAtIsNearest(k, minor, major);
    MinorAtIsNearest(major - k, minor, major);
    NearestInRange(k, j, minor, major);
    TimesCommutes(minor, major);
    TimesDifference(major, k, minor);
    TimesDifference(minor, j, major);
    if 2 * (Times(j, major) - Times(k, minor)) != major {
      NearestIsMinorAt(major - k, minor - j, minor, major);
    }
  }

  /** The steps that a point of a line has taken along each axis. */
  predicate AtStep(l: Line, p: Point, k: nat)
  {
    && Along(l.sx, p.x - l.x) == (if l.w >= l.h then k else MinorAt(k, l.w, l.h))
    && Along(l.sy, p.y - l.y) == (if l.w >= l.h then MinorAt(k, l.h, l.w) else k)
  }

  lemma PointAtStep(l: Line, p: Point, k: nat)
    requires l.HasPoint(k, p)
    ensures AtStep(l, p, k)
  {
    if l.Steps() > 0 {
      if l.w >= l.h {
        NearestIsMinorAt(k, Along(l.sy, p.y - l.y), l.h, l.w);
      } else {
        NearestIsMinorAt(k, Along(l.sx, p.x - l.x), l.w, l.h);
      }
    }
  }

  /** Along an axis, `i` steps from one end and `j` from the other meet if they add up. */
  lemma StepsMeet(from: int, to: int, p: int, q: int, i: nat, j: nat)
    requires Along(Step(from, to), p - from) == i && Along(Step(to, from), q - to) == j
    requires from == to ==> i == 0 && j == 0
    ensures p == q <==> Abs(to - from) - j == i
  {
  }

  lemma MajorMeets(from: int, to: int, p: int, q: int, k: nat, major: nat)
    requires Along(Step(from, to), p - from) == k <= major && Along(Step(to, from), q - to) == major - k
    requires Abs(to - from) == major > 0
    ensures p == q
  {
    StepsMeet(from, to, p, q, k, major - k);
  }

  lemma MinorMeets(from: int, to: int, p: int, q: int, k: nat, minor: nat, major: nat)
    requires 0 < major && k <= major && Abs(to - from) == minor
    requires Along(Step(from, to), p - from) == MinorAt(k, minor, major)
    requires Along(Step(to, from), q - to) == MinorAt(major - k, minor, major)
    ensures p == q <==> !HalfWay(k, minor, major)
  {
    if minor == 0 {
      NoMinor(k, major);
      NoMinor(major - k, major);
    }
    MinorReversed(minor, major, k);
    StepsMeet(from, to, p, q, MinorAt(k, minor, major), MinorAt(major - k, minor, major));
  }

  /**
   Drawing a line the other way round rounds the other way: point for point,
   the two lines have the same pixels exactly where the ideal line does not
   pass half-way between two.
   */
  lemma LineReversed(a: Point, b: Point, points: seq<Point>, others: seq<Point>, k: nat)
    requires LineBetween(a, b).Is(points) && LineBetween(b, a).Is(others) && k < |points|
    ensures |others| == |points|
    ensures points[k] == others[|points| - 1 - k]
       <==> !HalfWay(k, LineBetween(a, b).MinorLength(), LineBetween(a, b).Steps())
  {
    var (l, back, last) := (LineBetween(a, b), LineBetween(b, a), |points| - 1);
    PointOfLine(l, points, k);
    PointOfLine(back, others, last - k);
    PointAtStep(l, points[k], k);
    PointAtStep(back, others[last - k], last - k);
    PointReversed(a, b, points[k], others[last - k], k, last);
  }

  lemma PointReversed(a: Point, b: Point, p: Point, q: Point, k: nat, last: nat)
    requires k <= last == LineBetween(a, b).Steps()
    requires AtStep(LineBetween(a, b), p, k) && AtStep(LineBetween(b, a), q, last - k)
    ensures p == q <==> !HalfWay(k, LineBetween(a, b).MinorLength(), last)
  {
    if last > 0 {
      if Abs(b.x - a.x) >= Abs(b.y - a.y) {
        MajorMeets(a.x, b.x, p.x, q.x, k, last);
        MinorMeets(a.y, b.y, p.y, q.y, k, Abs(b.y - a.y), last);
      } else {
        MinorMeets(a.x, b.x, p.x, q.x, k, Abs(b.x - a.x), last);
        MajorMeets(a.y, b.y, p.y, q.y, k, last);
      }
    }
  }

  lemma NoMinor(k: nat, major: nat)
    requires 0 < major && k <= major
    ensures MinorAt(k, 0, major) == 0
  {
    TimesIsProduct(k, 0);
    NearestIsMinorAt(k, 0, 0, major);
  }

  lemma {:induction false} TimesDifference(a: nat, b: nat, x: nat)
    requires b <= a
    ensures Times(a - b, x) == Times(a, x) - Times(b, x)
    decreases b
  {
    if b > 0 {
      TimesDifference(a, b - 1, x);
    }
  }

  // ----- The painter

  class Painter {
    var penOn: bool
    var drawn: seq<Point>

    constructor (penOn: bool)
      ensures this.penOn == penOn && drawn == []
    {
      this.penOn := penOn;
      drawn := [];
    }

    method DrawPoint(pos: Point)
      modifies this`drawn
      ensures drawn == old(drawn) + [pos]
    {
      drawn := drawn + [pos];
    }

    /** The subset types of the local variables say that no 32-bit integer overflows and no coordinate is cut off. */
    method DrawLine(start: Point, end: Point)
      modifies this`drawn
      ensures !penOn ==> drawn == old(drawn)
      ensures penOn ==> LineBetween(start, end).AddedTo(old(drawn), drawn)
    {
      if !penOn {
        return;
      }
      var x0: Int32, y0: Int32 := start.x, start.y;
      var x1: Int32, y1: Int32 := end.x, end.y;
      var dx: Int32, sx := Abs(x1 - x0), Step(x0, x1);
      var dy: Int32, sy := 0 - Abs(y1 - y0), Step(y0, y1);
      var err: Int32 := dx + dy;
      AtStart(start, end);
      DrawPixels(LineBetween(start, end), start, end, dx, sx, dy, sy, err);
    }

    /** The loop over the pixels, from the first to the last. */
    method DrawPixels(ghost l: Line, start: Point, end: Point, dx: Int32, sx: int, dy: Int32, sy: int, err0: Int32)
      requires l == LineBetween(start, end) && Constants(l, dx, sx, dy, sy) && At(l, 0, 0, 0, start.x, start.y, err0)
      modifies this`drawn
      ensures l.AddedTo(old(drawn), drawn)
    {
      var x0: Int32, y0: Int32, err: Int32 := start.x, start.y, err0;
      var x1: Int32, y1: Int32 := end.x, end.y;
      ghost var i: nat, j: nat, k: nat := 0, 0, 0;
      ghost var before, points: seq<Point> := drawn, [];
      while true
        invariant Progress(l, before, points, k, drawn)
        invariant At(l, i, j, k, x0, y0, err)
        decreases l.Steps() - k
      {
        AtPixel(l, start, end, i, j, k, x0, y0, err);
        AppendPoint(l, before, points, Point(x0, y0));
        DrawPoint(Point(x0, y0));
        points := points + [Point(x0, y0)];
        if x0 == x1 && y0 == y1 {
          LineDone(l, before, points);
          break;
        }
        x0, y0, err, i, j := Advance(l, i, j, k, x0, y0, err, dx, dy, sx, sy);
        k := k + 1;
      }
    }
  }

  /** The rest of the loop body: one step along the major axis, and one along the minor axis if that is nearer. */
  method Advance(ghost l: Line, ghost i: nat, ghost j: nat, ghost k: nat,
                 x0: Int32, y0: Int32, err: Int32, dx: Int32, dy: Int32, sx: int, sy: int)
    returns (x0': Int32, y0': Int32, err': Int32, ghost i': nat, ghost j': nat)
    requires At(l, i, j, k, x0, y0, err) && k < l.Steps() && Constants(l, dx, sx, dy, sy)
    requires 0 <= x0 < 0x1_0000 && 0 <= y0 < 0x1_0000
    ensures At(l, i', j', k + 1, x0', y0', err')
  {
    NextStep(l, i, j, k);
    x0', y0', err', i', j' := x0, y0, err, i, j;
    var e2: Int32 := 2 * err;
    if e2 >= dy {
      err' := err' + dy;
      x0' := x0' + sx;
      i' := i + 1;
    }
    if e2 <= dx {
      err' := err' + dx;
      y0' := y0' + sy;
      j' := j + 1;
    }
  }

  // ----- Why the painter draws that line

  /** The value of `err` after `i` steps along x and `j` steps along y. */
  ghost function Error(l: Line, i: nat, j: nat): int
  {
    Times(j + 1, l.w) - Times(i + 1, l.h)
  }

  /** The local variables of the loop when the line has reached (`i`, `j`). */
  ghost predicate At(l: Line, i: nat, j: nat, k: nat, x0: int, y0: int, err: int)
  {
    && err == Error(l, i, j)
    && x0 == l.x + Along(l.sx, i)
    && y0 == l.y + Along(l.sy, j)
    && l.Reaches(i, j, k)
  }

  lemma AtStart(a: Point, b: Point)
    ensures At(LineBetween(a, b), 0, 0, 0, a.x, a.y, Abs(b.x - a.x) - Abs(b.y - a.y))
    ensures LineBetween(a, b).StartsWith([])
  {
    var l := LineBetween(a, b);
    assert Times(1, l.w) == Times(0, l.w) + l.w && Times(1, l.h) == Times(0, l.h) + l.h;
    assert Along(l.sx, 0) == Along(l.sy, 0) == 0;
  }

  /** The cursor stays between the end points, and is on the last one after the last step only. */
  lemma AtPixel(l: Line, a: Point, b: Point, i: nat, j: nat, k: nat, x0: int, y0: int, err: int)
    requires l == LineBetween(a, b) && At(l, i, j, k, x0, y0, err)
    ensures 0 <= x0 < 0x1_0000 && 0 <= y0 < 0x1_0000
    ensures l.HasPoint(k, Point(x0, y0))
    ensures k <= l.Steps()
    ensures k == l.Steps() <==> x0 == b.x && y0 == b.y
  {
    ReachesEnds(l, i, j, k);
  }

  /** The local variables of the loop that do not change. */
  ghost predicate Constants(l: Line, dx: int, sx: int, dy: int, sy: int)
  {
    && dx == l.w < 0x1_0000 && dy == 0 - l.h && l.h < 0x1_0000
    && sx == l.sx && sy == l.sy && Abs(sx) == 1 == Abs(sy)
  }

  lemma AppendPoint(l: Line, before: seq<Point>, points: seq<Point>, p: Point)
    requires l.StartsWith(points) && l.HasPoint(|points|, p)
    ensures Progress(l, before, points + [p], |points| + 1, before + points + [p])
  {
    assert (points + [p])[..|points|] == points;
  }

  /** The first `k` points of the line have been drawn. */
  ghost predicate Progress(l: Line, before: seq<Point>, points: seq<Point>, k: nat, drawn: seq<Point>)
  {
    drawn == before + points && k == |points| && l.StartsWith(points)
  }

  lemma LineDone(l: Line, before: seq<Point>, points: seq<Point>)
    requires l.Is(points)
    ensures l.AddedTo(before, before + points)
  {
  }

  /** A step along the minor axis is taken exactly when that brings the next point nearer. */
  lemma NextMinor(k: nat, j: nat, minor: nat, major: nat)
    requires minor <= major && Nearest(k, j, minor, major)
    ensures var e := Times(j, major) - Times(k, minor) + major - minor;
            && 2 * e >= 0 - minor
            && (2 * e <= major ==> Nearest(k + 1, j + 1, minor, major))
            && (2 * e > major ==> Nearest(k + 1, j, minor, major))
            && (0 - 2 * e >= 0 - major <==> 2 * e <= major)
            && Abs(e) <= 2 * (major + minor)
  {
  }

  /** One turn of the loop leads from step `k` to step `k + 1`. */
  lemma NextStep(l: Line, i: nat, j: nat, k: nat)
    requires l.Reaches(i, j, k) && k < l.Steps()
    ensures Abs(Error(l, i, j)) <= 2 * (l.w + l.h)
    ensures var err := Error(l, i, j);
            l.Reaches(if 2 * err >= 0 - l.h then i + 1 else i, if 2 * err <= l.w then j + 1 else j, k + 1)
  {
    if l.w >= l.h {
      NextMinor(k, j, l.h, l.w);
    } else {
      NextMinor(k, i, l.w, l.h);
    }
  }
}
