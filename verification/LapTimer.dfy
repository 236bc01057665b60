/** The gates and the crossing times of SpeedFeed.cpp. */
module LapTimer {
  import opened PlaneGeometry
  import opened Crossing

  /** A fix: position, speed, and the clock in milliseconds. */
  datatype Point = Point(at: Spot, v: real, t: int)

  // ---- The Waypoint constructor: where the gate's line, across the track at the second fix, meets a
  // circle around it

  function Slope(p1: Spot, p2: Spot): real
    requires p1.y != p2.y
  {
    (p1.x - p2.x) / (p2.y - p1.y)
  }

  /** B, the linear coefficient of the quadratic for x. */
  function LinearTerm(m: real, p2: Spot): real {
    var b := p2.y - m * p2.x;
    2.0 * b * m - 2.0 * p2.x - 2.0 * m * p2.y
  }

  function Discriminant(p1: Spot, p2: Spot, d: real): real
    requires p1.y != p2.y
  {
    var m := Slope(p1, p2);
    var b := p2.y - m * p2.x;
    var A := 1.0 + m * m;
    var B := LinearTerm(m, p2);
    var C := p2.x * p2.x + b * b - 2.0 * b * p2.y + p2.y * p2.y - d * d;
    B * B - 4.0 * A * C
  }

  /** The root of the quadratic. */
  function RootX(A: real, B: real, det: real): real
    requires A > 0.0
  {
    (-B + det) / (2.0 * A)
  }

  /** The y of the gate's line at x. */
  function LineY(m: real, p2: Spot, x: real): real {
    m * x + (p2.y - m * p2.x)
  }

  /** One end of the gate before rounding, for det or -det. */
  function GateEnd(p1: Spot, p2: Spot, det: real): Spot
    requires p1.y != p2.y
  {
    var m := Slope(p1, p2);
    SquareNotNegative(m);
    var x := RootX(1.0 + m * m, LinearTerm(m, p2), det);
    Spot(x, LineY(m, p2, x))
  }

  lemma LinearTermIs(m: real, p2: Spot, A: real)
    requires A == 1.0 + m * m
    ensures LinearTerm(m, p2) == -(2.0 * p2.x * A)
  {}

  lemma ConstantTermIs(m: real, x: real, y: real, d: real)
    ensures var b := y - m * x;
            x * x + b * b - 2.0 * b * y + y * y - d * d == x * x * (1.0 + m * m) - d * d
  {}

  lemma DiscriminantOf(x: real, A: real, d: real)
    ensures -(2.0 * x * A) * -(2.0 * x * A) - 4.0 * A * (x * x * A - d * d) == 4.0 * d * d * A
  {}

  /** The discriminant is 4 d^2 (1 + m^2): the square root is always taken of a number that is not negative. */
  lemma DiscriminantIsSquare(p1: Spot, p2: Spot, d: real)
    requires p1.y != p2.y
    ensures var m := Slope(p1, p2);
            Discriminant(p1, p2, d) == 4.0 * d * d * (1.0 + m * m) >= 0.0
  {
    var m := Slope(p1, p2);
    LinearTermIs(m, p2, 1.0 + m * m);
    ConstantTermIs(m, p2.x, p2.y, d);
    DiscriminantOf(p2.x, 1.0 + m * m, d);
    assert 0.0 <= m * m && 0.0 <= d * d;
  }

  /** The point at offset (e, m e) from q. */
  function Offset(q: Spot, m: real, e: real): Spot {
    Spot(q.x + e, q.y + m * e)
  }

  /** det / 2A. */
  function Reach(p1: Spot, p2: Spot, det: real): real
    requires p1.y != p2.y
  {
    SquareNotNegative(Slope(p1, p2));
    det / (2.0 * (1.0 + Slope(p1, p2) * Slope(p1, p2)))
  }

  /** The end is det / 2A to the side of the second fix, along a line of slope m. */
  lemma GateEndOffset(p1: Spot, p2: Spot, det: real)
    requires p1.y != p2.y
    ensures GateEnd(p1, p2, det) == Offset(p2, Slope(p1, p2), Reach(p1, p2, det))
  {
    var m := Slope(p1, p2);
    var A := 1.0 + m * m;
    SquareNotNegative(m);
    LinearTermIs(m, p2, A);
    RootXIs(p2.x, A, det);
    LineYIs(m, p2, det / (2.0 * A));
    hide LinearTerm, RootX, LineY;
  }

  lemma RootXIs(x: real, A: real, det: real)
    requires A > 0.0
    ensures RootX(A, -(2.0 * x * A), det) == x + det / (2.0 * A)
  {}

  lemma LineYIs(m: real, p2: Spot, e: real)
    ensures LineY(m, p2, p2.x + e) == p2.y + m * e
  {}

  lemma SquareOfQuotient(det: real, A: real, d: real)
    requires A > 0.0 && det * det == 4.0 * d * d * A
    ensures var e := det / (2.0 * A); e * e * A == d * d
  {
    var e := det / (2.0 * A);
    assert e * (2.0 * A) == det;
    assert (e * (2.0 * A)) * (e * (2.0 * A)) == 4.0 * A * (e * e * A);
    CancelFactor(4.0 * A, e * e * A, d * d);
  }

  /** The direction from q to p is at a right angle to the direction from p1 to p2. */
  predicate Across(p1: Spot, p2: Spot, p: Spot, q: Spot) {
    (p.x - q.x) * (p2.x - p1.x) + (p.y - q.y) * (p2.y - p1.y) == 0.0
  }

  lemma OffsetIsAcross(p1: Spot, p2: Spot, e: real)
    requires p1.y != p2.y
    ensures Across(p1, p2, Offset(p2, Slope(p1, p2), e), p2)
  {
    var m := Slope(p1, p2);
    assert m * (p2.y - p1.y) == p1.x - p2.x;
    assert (m * e) * (p2.y - p1.y) == e * (m * (p2.y - p1.y));
  }

  lemma OffsetDistance(q: Spot, m: real, e: real)
    ensures SquaredDistance(Offset(q, m, e), q) == e * e * (1.0 + m * m)
  {
    assert Offset(q, m, e).x - q.x == e && Offset(q, m, e).y - q.y == m * e;
    assert Square(e) + Square(m * e) == e * e * (1.0 + m * m);
  }

  /** The square of the reach is d^2 / A. */
  lemma ReachSquared(p1: Spot, p2: Spot, d: real, det: real)
    requires p1.y != p2.y && det * det == Discriminant(p1, p2, d)
    ensures SquaredDistance(Offset(p2, Slope(p1, p2), Reach(p1, p2, det)), p2) == d * d
  {
    var m := Slope(p1, p2);
    SquareNotNegative(m);
    DiscriminantIsSquare(p1, p2, d);
    SquareOfQuotient(det, 1.0 + m * m, d);
    OffsetDistance(p2, m, Reach(p1, p2, det));
  }

  lemma Opposite(p1: Spot, p2: Spot, det: real)
    requires p1.y != p2.y
    ensures Reach(p1, p2, -det) == -Reach(p1, p2, det)
  {
    var k := 2.0 * (1.0 + Slope(p1, p2) * Slope(p1, p2));
    SquareNotNegative(Slope(p1, p2));
    assert -det / k == -(det / k);
  }

  /** q1 and q2 are symmetric about q. */
  predicate Symmetric(q1: Spot, q2: Spot, q: Spot) {
    q1.x - q.x == q.x - q2.x && q1.y - q.y == q.y - q2.y
  }

  lemma OffsetsSymmetric(q: Spot, m: real, e: real)
    ensures Symmetric(Offset(q, m, e), Offset(q, m, -e), q)
  {
    assert m * -e == -(m * e);
  }

  /** Before rounding, the two ends are symmetric about the second fix, at distance |d| from it, and
      on the line through it perpendicular to the direction of travel. */
  lemma GateAcrossTrack(p1: Spot, p2: Spot, d: real, det: real)
    requires p1.y != p2.y && IsRoot(det, Discriminant(p1, p2, d))
    ensures var q1, q2 := GateEnd(p1, p2, det), GateEnd(p1, p2, -det);
            && Symmetric(q1, q2, p2)
            && SquaredDistance(q1, p2) == d * d == SquaredDistance(q2, p2)
            && Across(p1, p2, q1, p2) && Across(p1, p2, q2, p2)
  {
    assert (-det) * (-det) == det * det;
    GateEndOffset(p1, p2, det);
    GateEndOffset(p1, p2, -det);
    ReachSquared(p1, p2, d, det);
    ReachSquared(p1, p2, d, -det);
    OffsetIsAcross(p1, p2, Reach(p1, p2, det));
    OffsetIsAcross(p1, p2, Reach(p1, p2, -det));
    Opposite(p1, p2, det);
    OffsetsSymmetric(p2, Slope(p1, p2), Reach(p1, p2, det));
    hide GateEnd, Discriminant, Slope, SquaredDistance, Reach, Offset, Symmetric, Across;
  }

  /** The first end is the one with the greater first coordinate. */
  lemma EndsInOrder(p1: Spot, p2: Spot, d: real, det: real)
    requires p1.y != p2.y && IsRoot(det, Discriminant(p1, p2, d))
    ensures GateEnd(p1, p2, -det).x <= p2.x <= GateEnd(p1, p2, det).x
    ensures d != 0.0 ==> GateEnd(p1, p2, -det).x < GateEnd(p1, p2, det).x
  {
    var m := Slope(p1, p2);
    GateEndOffset(p1, p2, det);
    GateEndOffset(p1, p2, -det);
    Opposite(p1, p2, det);
    SquareNotNegative(m);
    DiscriminantIsSquare(p1, p2, d);
    hide GateEnd, Discriminant, Slope;
    var k := 2.0 * (1.0 + m * m);
    assert k > 0.0 && det / k >= 0.0;
    if d != 0.0 {
      SquarePositive(d);
      RootOfPositive(d, 1.0 + m * m, det);
      assert det / k > 0.0;
    }
  }

  lemma RootOfPositive(d: real, A: real, det: real)
    requires det >= 0.0 && Square(d) > 0.0 && A > 0.0 && det * det == 4.0 * d * d * A
    ensures det > 0.0
  {
    assert Square(d) * (4.0 * A) > 0.0;
    assert 4.0 * d * d * A == Square(d) * (4.0 * A);
  }

  /** A whole number of hundredths. */
  predicate Hundredths(r: real) {
    (r * 100.0).Floor as real == r * 100.0
  }

  /** The greatest whole number of hundredths that is not above v. */
  predicate RoundedDown(r: real, v: real) {
    Hundredths(r) && r <= v < r + 0.01
  }

  lemma RoundedDownIsGreatest(r: real, v: real, other: real)
    requires RoundedDown(r, v) && Hundredths(other) && other <= v
    ensures other <= r
  {
    var m, n := (other * 100.0).Floor, (r * 100.0).Floor;
    assert m < n + 1;
  }

  /** floor(v * 100) / 100.0. */
  function Round(v: real): (r: real)
    ensures RoundedDown(r, v)
  {
    var n := (v * 100.0).Floor;
    WholeFloor(n);
    n as real / 100.0
  }

  lemma WholeFloor(n: int)
    ensures n as real / 100.0 * 100.0 == n as real && (n as real).Floor == n
  {}

  // ---- Back-dating the crossing

  /** The adjustment that intersection stores, for the roots of the distances from the second fix to
      the meeting point and to the first fix. */
  function Adjustment(t1: int, t2: int, part: real, whole: real): int
    requires whole != 0.0
  {
    Shift((t1 - t2) as real, part, whole).Floor
  }

  /** The adjustment before it is rounded. */
  function Shift(dt: real, part: real, whole: real): real
    requires whole != 0.0
  {
    dt * part / whole
  }

  /** The time a fraction l of the way from t2 back to t1. */
  function Interpolate(l: real, t1: int, t2: int): real {
    t2 as real + Times(l, (t1 - t2) as real)
  }

  lemma SquaresGiveRatio(part: real, whole: real, l: real)
    requires part >= 0.0 && whole > 0.0 && 0.0 <= l && part * part == (l * l) * (whole * whole)
    ensures part == l * whole
  {
    var s := l * whole;
    assert s >= 0.0 && s * s == (l * l) * (whole * whole);
    if part != s {
      assert (part - s) * (part + s) == part * part - s * s == 0.0;
      assert part + s > 0.0;
      CancelFactor(part + s, part - s, 0.0);
    }
  }

  lemma SquareScales(l: real, d: real)
    ensures Square(-Times(l, d)) == (l * l) * Square(-d)
  {}

  lemma SumScales(l: real, u: real, v: real)
    ensures (l * l) * (u + v) == (l * l) * u + (l * l) * v
  {}

  lemma RatioScalesDistance(l: real, p: Spot, a: Spot, b: Spot)
    requires AtRatio(l, p, a, b)
    ensures SquaredDistance(b, p) == (l * l) * SquaredDistance(b, a)
  {
    SquareScales(l, a.x - b.x);
    SquareScales(l, a.y - b.y);
    hide Times, Square;
    assert b.x - p.x == -Times(l, a.x - b.x) && b.x - a.x == -(a.x - b.x);
    assert b.y - p.y == -Times(l, a.y - b.y) && b.y - a.y == -(a.y - b.y);
    SumScales(l, Square(b.x - a.x), Square(b.y - a.y));
  }

  lemma DistinctSpots(a: Spot, b: Spot)
    requires a != b
    ensures SquaredDistance(b, a) > 0.0
  {
    SquareNotNegative(b.x - a.x);
    SquareNotNegative(b.y - a.y);
    if a.x != b.x {
      SquarePositive(b.x - a.x);
    } else {
      SquarePositive(b.y - a.y);
    }
    hide Square;
  }

  lemma NonzeroRoot(whole: real, a: Spot, b: Spot)
    requires a != b && IsRoot(whole, SquaredDistance(b, a))
    ensures whole != 0.0
  {
    DistinctSpots(a, b);
  }

  /** The adjusted time is the linear interpolation of the two fixes' times at the crossing, rounded
      down, and so lies between them. */
  lemma AdjustmentInterpolates(p1: Point, p2: Point, c: Spot, d: Spot, part: real, whole: real) returns (l: real)
    requires p1.t <= p2.t && Detects(p1.at, p2.at, c, d)
    requires p1.at.x == p2.at.x ==> Between(Meeting(p1.at, p2.at, c, d).y, p1.at.y, p2.at.y)
    requires IsRoot(part, SquaredDistance(p2.at, Meeting(p1.at, p2.at, c, d)))
    requires IsRoot(whole, SquaredDistance(p2.at, p1.at))
    ensures AtRatio(l, Meeting(p1.at, p2.at, c, d), p1.at, p2.at)
    ensures whole != 0.0
    ensures var adjusted := p2.t + Adjustment(p1.t, p2.t, part, whole);
            adjusted == Interpolate(l, p1.t, p2.t).Floor && p1.t <= adjusted <= p2.t
  {
    var m := Meeting(p1.at, p2.at, c, d);
    MeetingIsOnBothLines(p1.at, p2.at, c, d);
    NotBothEqual(p1.at, p2.at, c, d);
    hide Meeting, OnLine, Denominator;
    if p1.at.x != p2.at.x {
      XDecides(m, p1.at, p2.at);
    } else {
      YDecides(m, p1.at, p2.at);
    }
    hide Detects;
    l :| AtRatio(l, m, p1.at, p2.at);
    RatioScalesDistance(l, m, p1.at, p2.at);
    DistinctSpots(p1.at, p2.at);
    hide SquaredDistance;
    assert whole != 0.0;
    SquaresGiveRatio(part, whole, l);
    FloorOfInterpolation(p1.t, p2.t, l, part, whole);
  }

  /** In particular whenever the segments do meet, wherever they run. */
  lemma MeetingInterpolates(p1: Point, p2: Point, c: Spot, d: Spot, part: real, whole: real) returns (l: real)
    requires p1.t <= p2.t && Denominator(p1.at, p2.at, c, d) != 0.0 && p1.at.x != 0.0 && p2.at.x != 0.0
    requires SegmentsMeet(p1.at, p2.at, c, d)
    requires IsRoot(part, SquaredDistance(p2.at, Meeting(p1.at, p2.at, c, d)))
    requires IsRoot(whole, SquaredDistance(p2.at, p1.at))
    ensures AtRatio(l, Meeting(p1.at, p2.at, c, d), p1.at, p2.at)
    ensures whole != 0.0
    ensures var adjusted := p2.t + Adjustment(p1.t, p2.t, part, whole);
            adjusted == Interpolate(l, p1.t, p2.t).Floor && p1.t <= adjusted <= p2.t
  {
    hide Meeting, Denominator, SegmentsMeet, IsRoot, SquaredDistance, AtRatio, Adjustment, Interpolate;
    SegmentsMeetIff(p1.at, p2.at, c, d);
    l := AdjustmentInterpolates(p1, p2, c, d, part, whole);
  }

  lemma FloorOfInterpolation(t1: int, t2: int, l: real, part: real, whole: real)
    requires t1 <= t2 && 0.0 <= l <= 1.0 && whole > 0.0 && part == l * whole
    ensures var adjusted := t2 + Adjustment(t1, t2, part, whole);
            adjusted == Interpolate(l, t1, t2).Floor && t1 <= adjusted <= t2
  {
    ShiftIsFraction((t1 - t2) as real, l, part, whole);
    hide Times;
    var s := Shift((t1 - t2) as real, part, whole);
    assert Interpolate(l, t1, t2) == t2 as real + s;
    hide Shift, Interpolate;
    FloorShift(t1, t2, s);
  }

  lemma ShiftIsFraction(dt: real, l: real, part: real, whole: real)
    requires dt <= 0.0 <= l <= 1.0 && whole > 0.0 && part == l * whole
    ensures Shift(dt, part, whole) == Times(l, dt) && dt <= Shift(dt, part, whole) <= 0.0
  {
    assert dt * part == (l * dt) * whole;
    assert Shift(dt, part, whole) == Times(l, dt);
    hide Shift, Times;
    FractionOfNegative(l, dt);
  }

  lemma FloorShift(t1: int, t2: int, s: real)
    requires (t1 - t2) as real <= s <= 0.0
    ensures t2 + s.Floor == (t2 as real + s).Floor && t1 <= t2 + s.Floor <= t2
  {}

  // ---- The objects

  class Waypoint {
    var x1: real
    var y1: real
    var x2: real
    var y2: real
    var speed: real
    var adjustment: int

    function End1(): Spot
      reads this
    {
      Spot(x1, y1)
    }

    function End2(): Spot
      reads this
    {
      Spot(x2, y2)
    }

    /** The constructor, given the root of the discriminant: each coordinate of the two ends, rounded down to
        hundredths. */
    constructor (px1: real, py1: real, px2: real, py2: real, d: real, det: real)
      requires py1 != py2 && IsRoot(det, Discriminant(Spot(px1, py1), Spot(px2, py2), d))
      ensures var end1 := GateEnd(Spot(px1, py1), Spot(px2, py2), det); RoundedDown(x1, end1.x) && RoundedDown(y1, end1.y)
      ensures var end2 := GateEnd(Spot(px1, py1), Spot(px2, py2), -det); RoundedDown(x2, end2.x) && RoundedDown(y2, end2.y)
      ensures speed == 0.0 && adjustment == 0
    {
      var end1 := GateEnd(Spot(px1, py1), Spot(px2, py2), det);
      var end2 := GateEnd(Spot(px1, py1), Spot(px2, py2), -det);
      hide GateEnd, Round, RoundedDown;
      y1 := Round(end1.y);
      y2 := Round(end2.y);
      x1 := Round(end1.x);
      x2 := Round(end2.x);
      adjustment := 0;
      speed := 0.0;
    }
  }

  /** intersection: whether the lines cross within reach, and if so when and how fast. */
  method Intersection(p1: Point, p2: Point, obj: Waypoint, part: real, whole: real) returns (crossed: bool)
    requires Detects(p1.at, p2.at, obj.End1(), obj.End2()) ==>
               && IsRoot(part, SquaredDistance(p2.at, Meeting(p1.at, p2.at, obj.End1(), obj.End2())))
               && IsRoot(whole, SquaredDistance(p2.at, p1.at))
    modifies obj`speed, obj`adjustment
    ensures crossed == Detects(p1.at, p2.at, obj.End1(), obj.End2())
    ensures if crossed then whole != 0.0 && obj.speed == (p1.v + p2.v) / 2.0 && obj.adjustment == Adjustment(p1.t, p2.t, part, whole)
            else obj.speed == old(obj.speed) && obj.adjustment == old(obj.adjustment)
  {
    hide Denominator, Meeting, IsRoot;
    if !(p1.at.x == 0.0 || p2.at.x == 0.0) {
      var denom := Denominator(p1.at, p2.at, obj.End1(), obj.End2());
      if denom == 0.0 {
        return false;
      }
      var p := Meeting(p1.at, p2.at, obj.End1(), obj.End2());
      if !(p.x <= Max(p1.at.x, p2.at.x) && p.x >= Min(p1.at.x, p2.at.x) &&
           p.y <= Max(obj.y1, obj.y2) && p.y >= Min(obj.y1, obj.y2))
      {
        return false;
      }
      NotBothEqual(p1.at, p2.at, obj.End1(), obj.End2());
      NonzeroRoot(whole, p1.at, p2.at);
      obj.speed := (p1.v + p2.v) / 2.0;
      obj.adjustment := Adjustment(p1.t, p2.t, part, whole);
      return true;
    }
    return false;
  }
}
