/** Bresenham lines and midpoint circles, as the pixels they set in order
    (lib/gfx.beer:24-67). */
module Lines {

  datatype Point = Point(x: int, y: int)

  function Abs(v: int): nat { if v < 0 then -v else v }
  function Max(a: nat, b: nat): nat { if a > b then a else b }
  function Sign(a: int, b: int): int { if a < b then 1 else -1 }

  // ---- lines ----

  /** p is on the ideal line from a to b to within half a pixel on the minor axis:
      the cross product over the major extent is the deviation. */
  ghost predicate HalfPixel(a: Point, b: Point, p: Point) {
    2 * Abs((p.y - a.y) * (b.x - a.x) - (p.x - a.x) * (b.y - a.y)) <= Max(Abs(b.x - a.x), Abs(b.y - a.y))
  }

  /** Along the major axis p is the k-th pixel from a towards b. */
  ghost predicate Advanced(a: Point, b: Point, p: Point, k: nat) {
    if Abs(b.x - a.x) >= Abs(b.y - a.y) then p.x == a.x + Sign(a.x, b.x) * k else p.y == a.y + Sign(a.y, b.y) * k
  }

  /** The deviation in real numbers, on the axis that moves less. */
  lemma Deviation(a: Point, b: Point, p: Point)
    requires HalfPixel(a, b, p) && a != b
    ensures var dx, dy := b.x - a.x, b.y - a.y;
            if Abs(dx) >= Abs(dy) then -0.5 <= p.y as real - (a.y as real + ((p.x - a.x) * dy) as real / dx as real) <= 0.5
            else -0.5 <= p.x as real - (a.x as real + ((p.y - a.y) * dx) as real / dy as real) <= 0.5
  {
    hide HalfPixel;
    if Abs(b.x - a.x) >= Abs(b.y - a.y) {
      FlatDeviation(a, b, p);
    } else {
      FlippedHalf(a, b, p);
      FlatDeviation(Flip(a), Flip(b), Flip(p));
    }
  }

  function Flip(p: Point): Point { Point(p.y, p.x) }

  lemma FlippedHalf(a: Point, b: Point, p: Point)
    requires HalfPixel(a, b, p)
    ensures HalfPixel(Flip(a), Flip(b), Flip(p))
  {
    var u, v := (p.y - a.y) * (b.x - a.x), (p.x - a.x) * (b.y - a.y);
    assert Abs(u - v) == Abs(v - u);
  }

  lemma FlatDeviation(a: Point, b: Point, p: Point)
    requires HalfPixel(a, b, p) && Abs(b.x - a.x) >= Abs(b.y - a.y) && a.x != b.x
    ensures var ideal := a.y as real + ((p.x - a.x) * (b.y - a.y)) as real / (b.x - a.x) as real;
            -0.5 <= p.y as real - ideal <= 0.5
  {
    hide HalfPixel;
    HalfPixelX(a, b, p);
    var n, j := (b.x - a.x) as real, (p.y - a.y) as real;
    var km := ((p.x - a.x) * (b.y - a.y)) as real;
    DivMul(km, n);
    AsProduct(p.y - a.y, b.x - a.x);
    HalfOf(j - km / n, n, j * n - km);
  }

  lemma HalfPixelX(a: Point, b: Point, p: Point)
    requires HalfPixel(a, b, p) && Abs(b.x - a.x) >= Abs(b.y - a.y)
    ensures 2 * Abs((p.y - a.y) * (b.x - a.x) - (p.x - a.x) * (b.y - a.y)) <= Abs(b.x - a.x)
  {}

  lemma AsProduct(j: int, n: int)
    ensures j as real * n as real == (j * n) as real
  {}

  lemma DivMul(x: real, n: real)
    requires n != 0.0
    ensures x / n * n == x
  {}

  lemma HalfOf(off: real, n: real, cross: real)
    requires n != 0.0 && off * n == cross
    requires -(if n < 0.0 then -n else n) <= 2.0 * cross <= (if n < 0.0 then -n else n)
    ensures -0.5 <= off <= 0.5
  {}

  // The doubled error.  Its products are kept behind a name.
  ghost function Cross(dx: int, dy: int, i: int, j: int): int { j * dx - i * dy }

  lemma CrossSteps(dx: int, dy: int, i: int, j: int)
    ensures Cross(dx, dy, 0, 0) == 0
    ensures Cross(dx, dy, i + 1, j) == Cross(dx, dy, i, j) - dy
    ensures Cross(dx, dy, i, j + 1) == Cross(dx, dy, i, j) + dx
    ensures Cross(dx, dy, i + 1, j + 1) == Cross(dx, dy, i, j) + dx - dy
    ensures Cross(dy, dx, j, i) == -Cross(dx, dy, i, j)
  {}

  /** While the error is in range the minor axis does not run past its end ... */
  lemma MinorBound(big: int, small: int, k: int, j: int)
    requires 0 <= small && 0 < big && 0 <= k <= big && 2 * Cross(big, small, k, j) < big
    ensures j <= small
  {
    assert (small + 1) * big == small * big + big;
    Product(k, big, small);
    if j > small { Product(small + 1, j, big); }
  }

  lemma Product(a: int, b: int, d: int)
    requires a <= b && 0 <= d
    ensures a * d <= b * d
  {}

  /** ... and it is there when the major axis is. */
  lemma Arrived(big: int, small: int, j: int)
    requires 0 <= small && 0 < big && -big <= 2 * Cross(big, small, big, j) < big
    ensures j == small
  {
    MinorBound(big, small, big, j);
    assert (j + 1) * big == j * big + big;
    if j < small { Product(j + 1, small, big); }
  }

  /** One turn of the loop, `big` the major and `small` the minor extent: the major
      axis always steps, and the error stays within [-big, big). */
  lemma Turn(big: int, small: int, d: int)
    requires 0 <= small <= big && 0 < big && -big <= 2 * d < big && (small == big ==> d == 0)
    ensures var e2 := 2 * (d + big - small);
            && e2 > -small
            && (var d' := d - small + if e2 < big then big else 0;
                -big <= 2 * d' < big && (small == big ==> d' == 0 && e2 < big))
  {}

  // ---- line! ----

  /** The error after i steps in x and j in y, in whichever direction is the major one. */
  ghost predicate Tracked(dx: int, dy: int, i: int, j: int) {
    && 0 <= i <= dx && 0 <= j <= dy
    && if dx >= dy then InRange(dx, dy, Cross(dx, dy, i, j)) && i >= j else InRange(dy, dx, -Cross(dx, dy, i, j)) && j >= i
  }

  ghost predicate InRange(big: int, small: int, d: int) {
    if big == 0 then d == 0 else -big <= 2 * d < big && (small == big ==> d == 0)
  }

  function At(a: Point, b: Point, i: int, j: int): Point {
    Point(a.x + Sign(a.x, b.x) * i, a.y + Sign(a.y, b.y) * j)
  }

  ghost predicate Pixel(a: Point, b: Point, p: Point, k: nat) {
    Advanced(a, b, p, k) && HalfPixel(a, b, p)
  }

  /** line!: from end to end in max(dx, dy) + 1 pixels, each within half a pixel. */
  method Line(a: Point, b: Point) returns (pts: seq<Point>)
    ensures |pts| == Max(Abs(b.x - a.x), Abs(b.y - a.y)) + 1
    ensures pts[0] == a && pts[|pts| - 1] == b
    ensures forall k :: 0 <= k < |pts| ==> Advanced(a, b, pts[k], k) && HalfPixel(a, b, pts[k])
  {
    hide Tracked, Pixel, Cross, Advanced, HalfPixel;
    var dx: int, dy: int := Abs(b.x - a.x), Abs(b.y - a.y);
    var sx, sy := Sign(a.x, b.x), Sign(a.y, b.y);
    var x, y, err := a.x, a.y, dx - dy;
    ghost var i, j := 0, 0;
    CrossSteps(dx, dy, 0, 0);
    TrackedStart(a, b);
    pts := [Point(x, y)];
    while !(x == b.x && y == b.y)
      invariant Point(x, y) == At(a, b, i, j) && err == Cross(dx, dy, i, j) + dx - dy
      invariant Tracked(dx, dy, i, j) && 0 <= i <= dx && 0 <= j <= dy
      invariant |pts| == (if dx >= dy then i else j) + 1 && pts[0] == a && pts[|pts| - 1] == Point(x, y)
      invariant forall k :: 0 <= k < |pts| ==> Pixel(a, b, pts[k], k)
      decreases dx - i + dy - j
    {
      var e2 := 2 * err;
      TrackedTurn(a, b, i, j);
      CrossSteps(dx, dy, i, j);
      x, y, err := if e2 > -dy then x + sx else x, if e2 < dx then y + sy else y,
                   err + (if e2 > -dy then -dy else 0) + if e2 < dx then dx else 0;
      i, j := if e2 > -dy then i + 1 else i, if e2 < dx then j + 1 else j;
      TrackedPixel(a, b, i, j);
      pts := pts + [Point(x, y)];
    }
    AtEnd(a, b, i, j);
    PixelsAre(a, b, pts);
  }

  lemma TrackedStart(a: Point, b: Point)
    ensures Tracked(Abs(b.x - a.x), Abs(b.y - a.y), 0, 0) && At(a, b, 0, 0) == a && Pixel(a, b, a, 0)
  {
    CrossSteps(Abs(b.x - a.x), Abs(b.y - a.y), 0, 0);
  }

  lemma PixelsAre(a: Point, b: Point, pts: seq<Point>)
    requires forall k :: 0 <= k < |pts| ==> Pixel(a, b, pts[k], k)
    ensures forall k :: 0 <= k < |pts| ==> Advanced(a, b, pts[k], k) && HalfPixel(a, b, pts[k])
  {
    hide Advanced, HalfPixel;
  }

  lemma AtEnd(a: Point, b: Point, i: int, j: int)
    requires 0 <= i && 0 <= j && At(a, b, i, j) == b
    ensures i == Abs(b.x - a.x) && j == Abs(b.y - a.y)
  {}

  lemma TrackedTurn(a: Point, b: Point, i: int, j: int)
    requires Tracked(Abs(b.x - a.x), Abs(b.y - a.y), i, j) && At(a, b, i, j) != b
    ensures var dx, dy := Abs(b.x - a.x), Abs(b.y - a.y);
            var e2 := 2 * (Cross(dx, dy, i, j) + dx - dy);
            var i', j' := if e2 > 0 - dy then i + 1 else i, if e2 < dx then j + 1 else j;
            && Tracked(dx, dy, i', j') && 0 <= i' <= dx && 0 <= j' <= dy
            && (if dx >= dy then e2 > 0 - dy else e2 < dx)
  {
    hide Cross;
    var dx, dy := Abs(b.x - a.x), Abs(b.y - a.y);
    var d := Cross(dx, dy, i, j);
    CrossSteps(dx, dy, i, j);
    EndAt(a, b);
    if dx >= dy {
      if i == dx && dx > 0 { Arrived(dx, dy, j); }
      Turn(dx, dy, d);
      var j' := if 2 * (d + dx - dy) < dx then j + 1 else j;
      MinorBound(dx, dy, i + 1, j');
    } else {
      if j == dy { Arrived(dy, dx, i); }
      Turn(dy, dx, -d);
      var i' := if 2 * (d + dx - dy) > -dy then i + 1 else i;
      CrossSteps(dx, dy, i', j + 1);
      MinorBound(dy, dx, j + 1, i');
    }
  }

  lemma EndAt(a: Point, b: Point)
    ensures At(a, b, Abs(b.x - a.x), Abs(b.y - a.y)) == b
  {}

  lemma TrackedPixel(a: Point, b: Point, i: int, j: int)
    requires Tracked(Abs(b.x - a.x), Abs(b.y - a.y), i, j)
    ensures Pixel(a, b, At(a, b, i, j), if Abs(b.x - a.x) >= Abs(b.y - a.y) then i else j)
  {
    var dx, dy := Abs(b.x - a.x), Abs(b.y - a.y);
    CrossIs(a, b, i, j);
    assert Abs(Cross(dx, dy, i, j)) * 2 <= Max(dx, dy) by { hide Cross; }
  }

  lemma CrossIs(a: Point, b: Point, i: int, j: int)
    ensures var p := At(a, b, i, j);
            Abs((p.y - a.y) * (b.x - a.x) - (p.x - a.x) * (b.y - a.y)) == Abs(Cross(Abs(b.x - a.x), Abs(b.y - a.y), i, j))
  {
    var dx, dy := Abs(b.x - a.x), Abs(b.y - a.y);
    var sx, sy := Sign(a.x, b.x), Sign(a.y, b.y);
    assert b.x - a.x == sx * dx && b.y - a.y == sy * dy;
    SignedCross(sx, sy, dx, dy, i, j);
  }

  lemma SignedCross(sx: int, sy: int, dx: int, dy: int, i: int, j: int)
    requires (sx == 1 || sx == -1) && (sy == 1 || sy == -1)
    ensures (sy * j) * (sx * dx) - (sx * i) * (sy * dy) == sx * sy * (j * dx - i * dy)
  {}

  // ---- circle! ----

  /** Four times the decision variable, plus one, as the code keeps it. */
  ghost predicate Decision(x: int, y: int, r: int, d: int) {
    4 * d + 1 == 4 * (x + 1) * (x + 1) + (2 * y - 1) * (2 * y - 1) - 4 * r * r
  }

  /** How far a point is off the circle, in squares. */
  function Off(x: int, y: int, r: int): int { x * x + y * y - r * r }

  function Eight(c: Point, x: int, y: int): seq<Point> {
    [Point(c.x + x, c.y + y), Point(c.x + y, c.y + x), Point(c.x - x, c.y + y), Point(c.x - y, c.y + x),
     Point(c.x + x, c.y - y), Point(c.x + y, c.y - x), Point(c.x - x, c.y - y), Point(c.x - y, c.y - x)]
  }

  lemma DecisionStart(r: int)
    ensures Decision(0, r, r, 1 - r)
  {}

  lemma DecisionStep(x: int, y: int, r: int, d: int)
    requires Decision(x, y, r, d)
    ensures d == Off(x, y, r) + 2 * x + 1 - y
    ensures Decision(x + 1, y, r, d + 2 * x + 3) && Decision(x + 1, y - 1, r, d + 2 * (x - y) + 5)
    ensures Off(x + 1, y, r) == d + y && Off(x + 1, y - 1, r) == d - y + 1
  {
    assert (x + 2) * (x + 2) == (x + 1) * (x + 1) + 2 * x + 3;
    assert (2 * y - 3) * (2 * y - 3) == (2 * y - 1) * (2 * y - 1) - 8 * y + 8;
    assert (x + 1) * (x + 1) == x * x + 2 * x + 1;
    assert (2 * y - 1) * (2 * y - 1) == 4 * (y * y) - 4 * y + 1;
    assert (y - 1) * (y - 1) == y * y - 2 * y + 1;
  }

  /** The reflections of an octant's pixels, column by column. */
  function Flat(c: Point, ys: seq<int>): (r: seq<Point>)
    ensures |r| == 8 * |ys|
  {
    if ys == [] then [] else Flat(c, ys[..|ys| - 1]) + Eight(c, |ys| - 1, ys[|ys| - 1])
  }

  /** Column x is drawn at height ys[x]: within the octant, at most one pixel below the
      column before it, and within ys[x] of the circle. */
  ghost predicate Octant(ys: seq<int>, r: int) {
    && (|ys| > 0 ==> ys[0] == r)
    && (forall x :: 0 <= x < |ys| ==> x <= ys[x] <= r && Abs(Off(x, ys[x], r)) <= ys[x])
    && (forall x :: 0 < x < |ys| ==> ys[x - 1] - 1 <= ys[x] <= ys[x - 1])
  }

  /** circle!: column by column down to the diagonal, where the next pixel would be past it. */
  method Circle(c: Point, r: int) returns (pts: seq<Point>, octant: seq<int>)
    ensures pts == Flat(c, octant) && Octant(octant, r)
    ensures r >= 0 <==> |octant| > 0
    ensures |octant| > 0 ==> octant[|octant| - 1] <= |octant|
    ensures forall p :: p in pts ==> Near(c, r, p)
  {
    hide Off, Decision, Flat, Eight, Octant, Near;
    var x, y, d := 0, r, 1 - r;
    pts, octant := [], [];
    CircleStart(c, r);
    while x <= y
      invariant x == |octant| && pts == Flat(c, octant) && Decision(x, y, r, d)
      invariant Octant(octant, r) && Ready(octant, y, r)
      decreases y - x
    {
      OctantMore(octant, y, r, d);
      FlatMore(c, octant, y);
      pts := pts + Eight(c, x, y);
      octant := octant + [y];
      DecisionStep(x, y, r, d);
      if d < 0 {
        x, d := x + 1, d + 2 * x + 3;
      } else {
        x, y, d := x + 1, y - 1, d + 2 * (x - y) + 5;
      }
    }
    OctantSign(octant, r);
    FlatNear(c, octant, r);
  }

  lemma OctantSign(ys: seq<int>, r: int)
    requires Octant(ys, r)
    ensures |ys| > 0 ==> r >= 0
  {}

  /** y may be the next column's height. */
  ghost predicate Ready(ys: seq<int>, y: int, r: int) {
    && (|ys| <= y ==> y <= r && Abs(Off(|ys|, y, r)) <= y)
    && (if |ys| == 0 then y == r else ys[|ys| - 1] - 1 <= y <= ys[|ys| - 1])
  }

  lemma CircleStart(c: Point, r: int)
    ensures Decision(0, r, r, 1 - r) && Ready([], r, r) && Octant([], r) && Flat(c, []) == []
  {
    DecisionStart(r);
    OffStart(r);
  }

  lemma FlatMore(c: Point, ys: seq<int>, y: int)
    ensures Flat(c, ys + [y]) == Flat(c, ys) + Eight(c, |ys|, y)
  {
    hide Eight;
    assert (ys + [y])[..|ys|] == ys;
  }

  lemma OctantMore(ys: seq<int>, y: int, r: int, d: int)
    requires Octant(ys, r) && Ready(ys, y, r) && |ys| <= y && Decision(|ys|, y, r, d)
    ensures Octant(ys + [y], r)
    ensures d < 0 ==> Ready(ys + [y], y, r)
    ensures d >= 0 ==> Ready(ys + [y], y - 1, r)
  {
    hide Off, Decision;
    DecisionStep(|ys|, y, r, d);
  }

  lemma OffStart(r: int)
    ensures Off(0, r, r) == 0
  {}

  /** p is off the circle, in squares, by no more than its larger distance from the centre. */
  ghost predicate Near(c: Point, r: int, p: Point) {
    Abs(Off(p.x - c.x, p.y - c.y, r)) <= Max(Abs(p.x - c.x), Abs(p.y - c.y))
  }

  /** A reflection is as far off the circle as its pixel. */
  lemma ReflectionsAreNear(c: Point, x: int, y: int, r: int, p: Point)
    requires p in Eight(c, x, y) && 0 <= x <= y
    ensures Off(p.x - c.x, p.y - c.y, r) == Off(x, y, r) && Max(Abs(p.x - c.x), Abs(p.y - c.y)) == y
  {}

  lemma {:induction false} FlatNear(c: Point, ys: seq<int>, r: int)
    requires Octant(ys, r)
    ensures forall p :: p in Flat(c, ys) ==> Near(c, r, p)
  {
    hide Off, Eight;
    if ys != [] {
      var n := |ys| - 1;
      FlatNear(c, ys[..n], r);
      forall p | p in Eight(c, n, ys[n]) ensures Near(c, r, p) { ReflectionsAreNear(c, n, ys[n], r, p); }
    }
  }
}
