// The lap timer's geometry (SpeedFeed.cpp), over exact reals: gates placed across the track, and
// the test whether two consecutive fixes straddle one. sqrt is any nonnegative root.

/** Lines, segments and roots. */
module PlaneGeometry {

  datatype Spot = Spot(x: real, y: real)

  function Min(a: real, b: real): real {
    if a <= b then a else b
  }

  function Max(a: real, b: real): real {
    if a <= b then b else a
  }

  predicate Between(v: real, a: real, b: real) {
    Min(a, b) <= v <= Max(a, b)
  }

  ghost predicate IsRoot(r: real, v: real) {
    r >= 0.0 && r * r == v
  }

  function Square(x: real): real {
    x * x
  }

  lemma SquareNotNegative(x: real)
    ensures Square(x) >= 0.0
  {}

  lemma SameSign(s: real, x: real)
    requires x > 0.0 && s / x > 0.0
    ensures s > 0.0
  {}

  lemma SquarePositive(x: real)
    requires x != 0.0
    ensures Square(x) > 0.0
  {
    var s := Square(x);
    if x > 0.0 {
      assert s / x == x;
      SameSign(s, x);
    } else {
      assert s / -x == -x;
      SameSign(s, -x);
    }
  }

  function SquaredDistance(p: Spot, q: Spot): real {
    Square(p.x - q.x) + Square(p.y - q.y)
  }

  /** A product, named where its factors do not matter. */
  function Times(l: real, d: real): real {
    l * d
  }

  /** p is the fraction l of the way from b to a. */
  predicate AtRatio(l: real, p: Spot, a: Spot, b: Spot) {
    0.0 <= l <= 1.0 && p.x == b.x + Times(l, a.x - b.x) && p.y == b.y + Times(l, a.y - b.y)
  }

  ghost predicate OnSegment(p: Spot, a: Spot, b: Spot) {
    exists l: real :: AtRatio(l, p, a, b)
  }

  predicate OnLine(p: Spot, a: Spot, b: Spot) {
    (a.y - b.y) * (p.x - b.x) == (a.x - b.x) * (p.y - b.y)
  }

  /** The closed segments ab and cd have a point in common. */
  ghost predicate SegmentsMeet(a: Spot, b: Spot, c: Spot, d: Spot) {
    exists p: Spot :: OnSegment(p, a, b) && OnSegment(p, c, d)
  }

  lemma ProductNotNegative(a: real, b: real)
    requires a >= 0.0 && b >= 0.0
    ensures a * b >= 0.0
  {}

  lemma Fraction(l: real, d: real)
    requires 0.0 <= l <= 1.0 && d >= 0.0
    ensures 0.0 <= Times(l, d) <= d
  {
    ProductNotNegative(l, d);
    ProductNotNegative(1.0 - l, d);
    assert (1.0 - l) * d == d - l * d;
  }

  lemma FractionOfNegative(l: real, d: real)
    requires 0.0 <= l <= 1.0 && d <= 0.0
    ensures d <= Times(l, d) <= 0.0
  {
    Fraction(l, -d);
    assert Times(l, -d) == -Times(l, d);
  }

  lemma RatioBetween(l: real, a: real, b: real)
    requires 0.0 <= l <= 1.0
    ensures Between(b + Times(l, a - b), a, b)
  {
    hide Times;
    if a <= b {
      FractionOfNegative(l, a - b);
    } else {
      Fraction(l, a - b);
    }
  }

  lemma TimesExchange(l: real, dx: real, dy: real)
    ensures dy * Times(l, dx) == dx * Times(l, dy)
  {}

  lemma OnSegmentIsOnLine(p: Spot, a: Spot, b: Spot)
    requires OnSegment(p, a, b)
    ensures OnLine(p, a, b) && Between(p.x, a.x, b.x) && Between(p.y, a.y, b.y)
  {
    var l: real :| AtRatio(l, p, a, b);
    RatioBetween(l, a.x, b.x);
    RatioBetween(l, a.y, b.y);
    TimesExchange(l, a.x - b.x, a.y - b.y);
    hide Times;
  }

  lemma RatioRange(n: real, d: real)
    requires d != 0.0 && (if d > 0.0 then 0.0 <= n <= d else d <= n <= 0.0)
    ensures 0.0 <= n / d <= 1.0
  {}

  lemma Proportional(dx: real, dy: real, ex: real, ey: real)
    requires dx != 0.0 && dy * ex == dx * ey
    ensures ex == Times(ex / dx, dx) && ey == Times(ex / dx, dy)
  {
    var l := ex / dx;
    assert ex == l * dx;
    assert dx * ey == dx * (l * dy);
  }

  /** On a line that is not vertical, x alone says whether a point is on the segment. */
  lemma XDecides(p: Spot, a: Spot, b: Spot)
    requires a.x != b.x && OnLine(p, a, b) && Between(p.x, a.x, b.x)
    ensures OnSegment(p, a, b)
  {
    var l := (p.x - b.x) / (a.x - b.x);
    RatioRange(p.x - b.x, a.x - b.x);
    Proportional(a.x - b.x, a.y - b.y, p.x - b.x, p.y - b.y);
    hide Times;
    assert AtRatio(l, p, a, b);
  }

  /** On a line that is not horizontal, y alone does. */
  lemma YDecides(p: Spot, a: Spot, b: Spot)
    requires a.y != b.y && OnLine(p, a, b) && Between(p.y, a.y, b.y)
    ensures OnSegment(p, a, b)
  {
    var l := (p.y - b.y) / (a.y - b.y);
    RatioRange(p.y - b.y, a.y - b.y);
    Proportional(a.y - b.y, a.x - b.x, p.y - b.y, p.x - b.x);
    hide Times;
    assert AtRatio(l, p, a, b);
  }
}

/** intersection: the crossing of the line through two fixes with the line through a gate's ends. */
module Crossing {
  import opened PlaneGeometry

  function Denominator(a: Spot, b: Spot, c: Spot, d: Spot): real {
    (a.x - b.x) * (c.y - d.y) - (a.y - b.y) * (c.x - d.x)
  }

  /** (px, py) as intersection computes it. */
  function Meeting(a: Spot, b: Spot, c: Spot, d: Spot): Spot
    requires Denominator(a, b, c, d) != 0.0
  {
    var x1y2_y1x2 := a.x * b.y - a.y * b.x;
    var x3y4_y3x4 := c.x * d.y - c.y * d.x;
    var denom := Denominator(a, b, c, d);
    Spot((x1y2_y1x2 * (c.x - d.x) - (a.x - b.x) * x3y4_y3x4) / denom,
         (x1y2_y1x2 * (c.y - d.y) - (a.y - b.y) * x3y4_y3x4) / denom)
  }

  /** What intersection returns: x is tested against the fixes only, y against the gate only. A zero
      denominator gives an infinity or a NaN, which passes no chain of comparisons. */
  predicate Detects(a: Spot, b: Spot, c: Spot, d: Spot) {
    && a.x != 0.0 && b.x != 0.0
    && Denominator(a, b, c, d) != 0.0
    && var p := Meeting(a, b, c, d);
       Between(p.x, a.x, b.x) && Between(p.y, c.y, d.y)
  }

  lemma CancelFactor(d: real, u: real, v: real)
    requires d != 0.0 && d * u == d * v
    ensures u == v
  {}

  lemma Eliminate(ax: real, ay: real, cx: real, cy: real, u: real, v: real)
    ensures ay * (u * cx - ax * v) - ax * (u * cy - ay * v) == (ax * cy - ay * cx) * -u
  {}

  /** (nx / k, ny / k) is on the line ab. */
  lemma LineEquation(a: Spot, b: Spot, c: Spot, d: Spot, k: real, nx: real, ny: real, p: Spot)
    requires k == Denominator(a, b, c, d) && k != 0.0
    requires var u, v := a.x * b.y - a.y * b.x, c.x * d.y - c.y * d.x;
             nx == u * (c.x - d.x) - (a.x - b.x) * v && ny == u * (c.y - d.y) - (a.y - b.y) * v
    requires k * p.x == nx && k * p.y == ny
    ensures OnLine(p, a, b)
  {
    var ax, ay := a.x - b.x, a.y - b.y;
    Eliminate(ax, ay, c.x - d.x, c.y - d.y, a.x * b.y - a.y * b.x, c.x * d.y - c.y * d.x);
    assert ay * b.x - ax * b.y == -(a.x * b.y - a.y * b.x);
    assert ay * nx - ax * ny == k * (ay * b.x - ax * b.y);
    assert k * (ay * (p.x - b.x)) == k * (ax * (p.y - b.y));
    CancelFactor(k, ay * (p.x - b.x), ax * (p.y - b.y));
  }

  lemma MeetingIsOnBothLines(a: Spot, b: Spot, c: Spot, d: Spot)
    requires Denominator(a, b, c, d) != 0.0
    ensures OnLine(Meeting(a, b, c, d), a, b)
    ensures OnLine(Meeting(a, b, c, d), c, d)
  {
    var p := Meeting(a, b, c, d);
    var k := Denominator(a, b, c, d);
    var u, v := a.x * b.y - a.y * b.x, c.x * d.y - c.y * d.x;
    var nx := u * (c.x - d.x) - (a.x - b.x) * v;
    var ny := u * (c.y - d.y) - (a.y - b.y) * v;
    assert k * p.x == nx && k * p.y == ny;
    LineEquation(a, b, c, d, k, nx, ny, p);
    LineEquation(c, d, a, b, -k, -nx, -ny, p);
  }

  /** A point on both lines satisfies the two equations that the source divides out. */
  lemma SolveForX(a: Spot, b: Spot, c: Spot, d: Spot, q: Spot)
    requires OnLine(q, a, b) && OnLine(q, c, d)
    ensures Denominator(a, b, c, d) * q.x ==
            (a.x * b.y - a.y * b.x) * (c.x - d.x) - (a.x - b.x) * (c.x * d.y - c.y * d.x)
  {
    var ax, ay, cx, cy := a.x - b.x, a.y - b.y, c.x - d.x, c.y - d.y;
    assert ay * q.x - ax * q.y == a.y * b.x - a.x * b.y;
    assert cy * q.x - cx * q.y == c.y * d.x - c.x * d.y;
    assert cx * (ay * q.x - ax * q.y) == cx * (a.y * b.x - a.x * b.y);
    assert ax * (cy * q.x - cx * q.y) == ax * (c.y * d.x - c.x * d.y);
  }

  lemma SolveForY(a: Spot, b: Spot, c: Spot, d: Spot, q: Spot)
    requires OnLine(q, a, b) && OnLine(q, c, d)
    ensures Denominator(a, b, c, d) * q.y ==
            (a.x * b.y - a.y * b.x) * (c.y - d.y) - (a.y - b.y) * (c.x * d.y - c.y * d.x)
  {
    var ax, ay, cx, cy := a.x - b.x, a.y - b.y, c.x - d.x, c.y - d.y;
    assert ay * q.x - ax * q.y == a.y * b.x - a.x * b.y;
    assert cy * q.x - cx * q.y == c.y * d.x - c.x * d.y;
    assert cy * (ay * q.x - ax * q.y) == cy * (a.y * b.x - a.x * b.y);
    assert ay * (cy * q.x - cx * q.y) == ay * (c.y * d.x - c.x * d.y);
  }

  lemma MeetingIsUnique(a: Spot, b: Spot, c: Spot, d: Spot, q: Spot)
    requires Denominator(a, b, c, d) != 0.0 && OnLine(q, a, b) && OnLine(q, c, d)
    ensures q == Meeting(a, b, c, d)
  {
    var p := Meeting(a, b, c, d);
    var k := Denominator(a, b, c, d);
    MeetingIsOnBothLines(a, b, c, d);
    SolveForX(a, b, c, d, p);
    SolveForX(a, b, c, d, q);
    CancelFactor(k, p.x, q.x);
    SolveForY(a, b, c, d, p);
    SolveForY(a, b, c, d, q);
    CancelFactor(k, p.y, q.y);
  }

  /** Exactly when the test is right, for lines that are not parallel and fixes that are set: the
      untested coordinate must be in range too where the tested one does not vary. */
  lemma SegmentsMeetIff(a: Spot, b: Spot, c: Spot, d: Spot)
    requires Denominator(a, b, c, d) != 0.0 && a.x != 0.0 && b.x != 0.0
    ensures SegmentsMeet(a, b, c, d) <==>
            && Detects(a, b, c, d)
            && (a.x == b.x ==> Between(Meeting(a, b, c, d).y, a.y, b.y))
            && (c.y == d.y ==> Between(Meeting(a, b, c, d).x, c.x, d.x))
  {
    hide Meeting, Denominator, OnLine;
    var m := Meeting(a, b, c, d);
    MeetingIsOnBothLines(a, b, c, d);
    if SegmentsMeet(a, b, c, d) {
      var p: Spot :| OnSegment(p, a, b) && OnSegment(p, c, d);
      OnSegmentIsOnLine(p, a, b);
      OnSegmentIsOnLine(p, c, d);
      MeetingIsUnique(a, b, c, d, p);
    }
    if && Detects(a, b, c, d)
       && (a.x == b.x ==> Between(m.y, a.y, b.y))
       && (c.y == d.y ==> Between(m.x, c.x, d.x))
    {
      NotBothEqual(a, b, c, d);
      if a.x != b.x {
        XDecides(m, a, b);
      } else {
        YDecides(m, a, b);
      }
      if c.y != d.y {
        YDecides(m, c, d);
      } else {
        XDecides(m, c, d);
      }
      assert OnSegment(m, a, b) && OnSegment(m, c, d);
    }
  }

  lemma NotBothEqual(a: Spot, b: Spot, c: Spot, d: Spot)
    requires Denominator(a, b, c, d) != 0.0
    ensures a != b && c != d
    ensures a.x == b.x ==> a.y != b.y
    ensures c.y == d.y ==> c.x != d.x
  {}

  /** On track that does not run due north and a gate that does not run due east, the two one-sided
      tests together are the two-sided one. */
  lemma DetectsIffSegmentsMeet(a: Spot, b: Spot, c: Spot, d: Spot)
    requires Denominator(a, b, c, d) != 0.0 && a.x != b.x && c.y != d.y && a.x != 0.0 && b.x != 0.0
    ensures Detects(a, b, c, d) <==> SegmentsMeet(a, b, c, d)
  {
    SegmentsMeetIff(a, b, c, d);
  }

  /** Due north the test reports a gate that lies ahead, not between the fixes. */
  lemma DetectsAheadDueNorth()
    ensures var a, b, c, d := Spot(1.0, 0.0), Spot(1.0, 1.0), Spot(0.0, 5.0), Spot(2.0, 6.0);
            Detects(a, b, c, d) && !SegmentsMeet(a, b, c, d)
  {
    var a, b, c, d := Spot(1.0, 0.0), Spot(1.0, 1.0), Spot(0.0, 5.0), Spot(2.0, 6.0);
    assert Denominator(a, b, c, d) == -2.0;
    assert Meeting(a, b, c, d) == Spot(1.0, 5.5);
    SegmentsMeetIff(a, b, c, d);
  }
}
