/** The service area (packages/shared/src/service-area.ts) over any closed polygon, in exact reals; `kmLng` is
    the longitude scale at the point's latitude. */
module ServiceArea {
  import opened Options
  import opened Reals

  datatype Point = Point(lat: real, lng: real)

  const KM_LAT := 111.32
  const BORDER_MARGIN_KM := 10.0

  // ---------------------------------------------------------------- the ray

  predicate Straddles(a: Point, b: Point, lat: real) {
    (a.lat > lat) != (b.lat > lat)
  }

  /** Where the line through (ya, xa) and (yb, xb) is at height y. */
  function Cut(ya: real, xa: real, yb: real, xb: real, y: real): real
    requires ya != yb
  {
    Times(xb - xa, y - ya) / (yb - ya) + xa
  }

  /** Where the edge meets the horizontal line at `lat`. */
  function MeetsAt(a: Point, b: Point, lat: real): real
    requires a.lat != b.lat
  {
    Cut(a.lat, a.lng, b.lat, b.lng, lat)
  }

  predicate Crosses(a: Point, b: Point, p: Point) {
    Straddles(a, b, p.lat) && p.lng < MeetsAt(a, b, p.lat)
  }

  /** How often the ray from `p` crosses the open path. */
  function Crossings(path: seq<Point>, p: Point): nat {
    if |path| < 2 then 0
    else (if Crosses(path[1], path[0], p) then 1 else 0) + Crossings(path[1..], p)
  }

  /** The border as a path: from the last vertex through every vertex back to the last. */
  function Closed(border: seq<Point>): seq<Point> {
    if border == [] then [] else [border[|border| - 1]] + border
  }

  predicate Inside(border: seq<Point>, p: Point) {
    Crossings(Closed(border), p) % 2 == 1
  }

  lemma {:induction false} CrossingsSnoc(path: seq<Point>, c: Point, p: Point)
    requires path != []
    ensures Crossings(path + [c], p) == Crossings(path, p) + (if Crosses(c, path[|path| - 1], p) then 1 else 0)
  {
    var q := path + [c];
    if |path| == 1 {
      assert Crossings(q[1..], p) == 0;
    } else {
      assert q[1..] == path[1..] + [c];
      CrossingsSnoc(path[1..], c, p);
    }
  }

  method InsideBorder(border: seq<Point>, p: Point) returns (inside: bool)
    ensures inside == Inside(border, p)
  {
    inside := false;
    var n := |border|;
    var i, j := 0, n - 1;
    while i < n
      invariant 0 <= i <= n && j == (if i == 0 then n - 1 else i - 1)
      invariant inside == (Crossings(Closed(border)[..if n == 0 then 0 else i + 1], p) % 2 == 1)
    {
      ghost var path := Closed(border)[..i + 1];
      assert Closed(border)[..i + 2] == path + [border[i]];
      CrossingsSnoc(path, border[i], p);
      if Crosses(border[i], border[j], p) { inside := !inside; }
      j, i := i, i + 1;
    }
    assert Closed(border)[..if n == 0 then 0 else n + 1] == Closed(border);
  }

  // ---------------------------------------------------------------- start and direction do not matter

  /** The point `t` of the way from x to y. */
  function Lerp(x: real, y: real, t: real): real {
    x + Times(t, y - x)
  }

  lemma FractionInside(t: real, d: real, x: real)
    requires Times(t, d) == x && d != 0.0 && (0.0 <= x <= d || d <= x <= 0.0)
    ensures 0.0 <= t <= 1.0
  {
    Signs(t, d);
    Signs(t - 1.0, d);
    Distribute(d, t, 1.0);
  }

  lemma LerpInjective(x: real, y: real, t: real, u: real)
    requires x != y && Lerp(x, y, t) == Lerp(x, y, u)
    ensures t == u
  {
    Distribute(y - x, t, u);
    Signs(t - u, y - x);
  }

  lemma LerpBack(x: real, y: real, t: real)
    ensures Lerp(y, x, 1.0 - t) == Lerp(x, y, t)
  {
    Distribute(x - y, 1.0, t);
    Negate(t, y - x);
  }

  lemma LerpPart(x: real, y: real, t: real, v: real)
    ensures Lerp(x, Lerp(x, y, t), v) == Lerp(x, y, Times(v, t))
  {
    Associate(v, t, y - x);
  }

  lemma Between(x: real, y: real, t: real)
    requires 0.0 <= t <= 1.0
    ensures x <= Lerp(x, y, t) <= y || y <= Lerp(x, y, t) <= x
  {
    Signs(t, y - x);
    Signs(1.0 - t, y - x);
    Distribute(y - x, 1.0, t);
  }

  /** The cut as a fraction of the way along the edge. */
  lemma CutIsOnEdge(ya: real, xa: real, yb: real, xb: real, y: real) returns (t: real)
    requires (ya > y) != (yb > y)
    ensures 0.0 <= t <= 1.0 && Lerp(ya, yb, t) == y && Cut(ya, xa, yb, xb, y) == Lerp(xa, xb, t)
  {
    var d := yb - ya;
    t := Quotient(y - ya, d);
    FractionInside(t, d, y - ya);
    Associate(xb - xa, t, d);
    Commute(xb - xa, t);
    QuotientIs(Times(xb - xa, y - ya), d, Times(t, xb - xa));
  }

  lemma CutEitherWay(ya: real, xa: real, yb: real, xb: real, y: real)
    requires (ya > y) != (yb > y)
    ensures Cut(ya, xa, yb, xb, y) == Cut(yb, xb, ya, xa, y)
  {
    var t := CutIsOnEdge(ya, xa, yb, xb, y);
    var u := CutIsOnEdge(yb, xb, ya, xa, y);
    LerpBack(ya, yb, t);
    LerpInjective(yb, ya, 1.0 - t, u);
    LerpBack(xa, xb, t);
  }

  lemma CutOfPart(ya: real, xa: real, yb: real, xb: real, t: real, y: real)
    requires (ya > y) != (yb > y) && (ya > y) != (Lerp(ya, yb, t) > y)
    ensures Cut(ya, xa, Lerp(ya, yb, t), Lerp(xa, xb, t), y) == Cut(ya, xa, yb, xb, y)
  {
    var u := CutIsOnEdge(ya, xa, yb, xb, y);
    var v := CutIsOnEdge(ya, xa, Lerp(ya, yb, t), Lerp(xa, xb, t), y);
    LerpPart(ya, yb, t, v);
    LerpInjective(ya, yb, u, Times(v, t));
    LerpPart(xa, xb, t, v);
  }

  lemma CutIsBetween(ya: real, xa: real, yb: real, xb: real, y: real)
    requires (ya > y) != (yb > y)
    ensures xa <= Cut(ya, xa, yb, xb, y) <= xb || xb <= Cut(ya, xa, yb, xb, y) <= xa
  {
    var t := CutIsOnEdge(ya, xa, yb, xb, y);
    Between(xa, xb, t);
  }

  lemma CrossesEitherWay(a: Point, b: Point, p: Point)
    ensures Crosses(a, b, p) == Crosses(b, a, p)
  {
    if Straddles(a, b, p.lat) { CutEitherWay(a.lat, a.lng, b.lat, b.lng, p.lat); }
  }

  function Reversed(path: seq<Point>): seq<Point> {
    if path == [] then [] else Reversed(path[1..]) + [path[0]]
  }

  lemma {:induction false} ReversedEnds(path: seq<Point>)
    requires path != []
    ensures |Reversed(path)| == |path| && Reversed(path)[|path| - 1] == path[0] && Reversed(path)[0] == path[|path| - 1]
  {
    if |path| > 1 { ReversedEnds(path[1..]); }
  }

  lemma {:induction false} ReversedCrossings(path: seq<Point>, p: Point)
    ensures Crossings(Reversed(path), p) == Crossings(path, p)
  {
    if |path| >= 2 {
      ReversedCrossings(path[1..], p);
      ReversedEnds(path[1..]);
      CrossingsSnoc(Reversed(path[1..]), path[0], p);
      CrossesEitherWay(path[0], path[1], p);
    }
  }

  /** Two paths end to end, with the edge that joins them. */
  lemma {:induction false} CrossingsConcat(a: seq<Point>, b: seq<Point>, p: Point)
    requires a != [] && b != []
    ensures Crossings(a + b, p) == Crossings(a, p) + (if Crosses(b[0], a[|a| - 1], p) then 1 else 0) + Crossings(b, p)
  {
    assert (a + b)[1..] == a[1..] + b;
    if |a| > 1 { CrossingsConcat(a[1..], b, p); }
  }

  lemma ClosedCrossings(border: seq<Point>, p: Point)
    requires border != []
    ensures Crossings(Closed(border), p) == Crossings(border, p) + (if Crosses(border[0], border[|border| - 1], p) then 1 else 0)
  {
    CrossingsConcat([border[|border| - 1]], border, p);
  }

  /** The answer does not depend on the vertex the border starts at ... */
  lemma StartDoesNotMatter(a: seq<Point>, b: seq<Point>, p: Point)
    ensures Inside(a + b, p) == Inside(b + a, p)
  {
    if a == [] || b == [] {
      assert a + b == b + a;
    } else {
      ClosedCrossings(a + b, p);
      ClosedCrossings(b + a, p);
      CrossingsConcat(a, b, p);
      CrossingsConcat(b, a, p);
    }
  }

  /** ... nor on the direction of travel. */
  lemma DirectionDoesNotMatter(border: seq<Point>, p: Point)
    ensures Inside(Reversed(border), p) == Inside(border, p)
  {
    if border != [] {
      ReversedEnds(border);
      ClosedCrossings(border, p);
      ClosedCrossings(Reversed(border), p);
      ReversedCrossings(border, p);
      CrossesEitherWay(border[0], border[|border| - 1], p);
    }
  }

  /** A point `t` of the way along an edge. */
  function Along(a: Point, b: Point, t: real): Point {
    Point(Lerp(a.lat, b.lat, t), Lerp(a.lng, b.lng, t))
  }

  lemma AlongBack(a: Point, b: Point, t: real)
    ensures Along(b, a, 1.0 - t) == Along(a, b, t)
  {
    LerpBack(a.lat, b.lat, t);
    LerpBack(a.lng, b.lng, t);
  }

  function One(b: bool): nat {
    if b then 1 else 0
  }

  lemma PartCrosses(a: Point, b: Point, t: real, p: Point)
    requires Straddles(a, b, p.lat) && Straddles(a, Along(a, b, t), p.lat)
    ensures Crosses(a, Along(a, b, t), p) == Crosses(a, b, p)
  {
    CutOfPart(a.lat, a.lng, b.lat, b.lng, t, p.lat);
  }

  lemma PartAgrees(a: Point, b: Point, t: real, p: Point)
    ensures var m := Along(a, b, t);
            Straddles(a, b, p.lat) && Straddles(a, m, p.lat) ==> Crosses(m, a, p) == Crosses(b, a, p)
  {
    var m := Along(a, b, t);
    if Straddles(a, b, p.lat) && Straddles(a, m, p.lat) {
      PartCrosses(a, b, t, p);
      CrossesEitherWay(a, b, p);
      CrossesEitherWay(a, m, p);
    }
  }

  lemma SplitCases(a: Point, b: Point, m: Point, p: Point)
    requires a.lat <= m.lat <= b.lat || b.lat <= m.lat <= a.lat
    requires Straddles(a, b, p.lat) && Straddles(a, m, p.lat) ==> Crosses(m, a, p) == Crosses(b, a, p)
    requires Straddles(b, a, p.lat) && Straddles(b, m, p.lat) ==> Crosses(m, b, p) == Crosses(a, b, p)
    requires Crosses(a, b, p) == Crosses(b, a, p) && Crosses(m, b, p) == Crosses(b, m, p)
    ensures One(Crosses(b, a, p)) == One(Crosses(m, a, p)) + One(Crosses(b, m, p))
  {}

  lemma SplitEdge(a: Point, b: Point, t: real, p: Point)
    requires 0.0 <= t <= 1.0
    ensures var m := Along(a, b, t); One(Crosses(b, a, p)) == One(Crosses(m, a, p)) + One(Crosses(b, m, p))
  {
    var m := Along(a, b, t);
    Between(a.lat, b.lat, t);
    PartAgrees(a, b, t, p);
    AlongBack(a, b, t);
    PartAgrees(b, a, 1.0 - t, p);
    CrossesEitherWay(a, b, p);
    CrossesEitherWay(b, m, p);
    SplitCases(a, b, m, p);
  }

  /** Nor on how the border is cut into edges: a vertex put anywhere on an edge changes nothing. */
  lemma ExtraVertexDoesNotMatter(a: seq<Point>, b: seq<Point>, t: real, p: Point)
    requires a != [] && b != [] && 0.0 <= t <= 1.0
    ensures Inside(a + [Along(a[|a| - 1], b[0], t)] + b, p) == Inside(a + b, p)
  {
    var m := Along(a[|a| - 1], b[0], t);
    ClosedCrossings(a + [m] + b, p);
    ClosedCrossings(a + b, p);
    CrossingsConcat(a, b, p);
    CrossingsConcat(a + [m], b, p);
    CrossingsSnoc(a, m, p);
    SplitEdge(a[|a| - 1], b[0], t, p);
  }

  // ---------------------------------------------------------------- inside is within the bounding box

  function Straddlings(path: seq<Point>, lat: real): nat {
    if |path| < 2 then 0
    else (if Straddles(path[1], path[0], lat) then 1 else 0) + Straddlings(path[1..], lat)
  }

  /** A path changes side as often as it crosses the line. */
  lemma {:induction false} SidesAlternate(path: seq<Point>, lat: real)
    requires path != []
    ensures Straddlings(path, lat) % 2 == (if Straddles(path[0], path[|path| - 1], lat) then 1 else 0)
  {
    if |path| > 1 { SidesAlternate(path[1..], lat); }
  }

  lemma {:induction false} WestOfAllCrossesAll(path: seq<Point>, p: Point)
    requires forall k :: 0 <= k < |path| ==> p.lng < path[k].lng
    ensures Crossings(path, p) == Straddlings(path, p.lat)
  {
    if |path| >= 2 {
      WestOfAllCrossesAll(path[1..], p);
      var a, b := path[1], path[0];
      if Straddles(a, b, p.lat) { CutIsBetween(a.lat, a.lng, b.lat, b.lng, p.lat); }
    }
  }

  lemma {:induction false} SomeEdgeCrosses(path: seq<Point>, p: Point) returns (k: nat)
    requires Crossings(path, p) > 0
    ensures k + 1 < |path| && Crosses(path[k + 1], path[k], p)
  {
    if Crosses(path[1], path[0], p) { k := 0; } else { var j := SomeEdgeCrosses(path[1..], p); k := j + 1; }
  }

  lemma CrossingBounds(a: Point, b: Point, p: Point)
    requires Crosses(a, b, p)
    ensures a.lat <= p.lat < b.lat || b.lat <= p.lat < a.lat
    ensures p.lng < a.lng || p.lng < b.lng
  {
    CutIsBetween(a.lat, a.lng, b.lat, b.lng, p.lat);
  }

  lemma SomeVertexIsWest(border: seq<Point>, p: Point)
    requires Inside(border, p)
    ensures exists c :: c in border && c.lng <= p.lng
  {
    var path := Closed(border);
    assert forall k :: 0 <= k < |path| ==> path[k] in border;
    if forall c :: c in border ==> p.lng < c.lng {
      WestOfAllCrossesAll(path, p);
      SidesAlternate(path, p.lat);
    }
  }

  /** Any point judged inside lies in the border's bounding box. */
  lemma InsideIsInBox(border: seq<Point>, p: Point)
    requires Inside(border, p)
    ensures exists a, b :: a in border && b in border && a.lat <= p.lat < b.lat
    ensures exists c, d :: c in border && d in border && c.lng <= p.lng < d.lng
  {
    var path := Closed(border);
    assert forall k :: 0 <= k < |path| ==> path[k] in border;
    var k := SomeEdgeCrosses(path, p);
    CrossingBounds(path[k + 1], path[k], p);
    SomeVertexIsWest(border, p);
  }

  lemma UprightCrosses(a: Point, b: Point, p: Point)
    requires a.lng == b.lng && a.lat != b.lat
    ensures MeetsAt(a, b, p.lat) == a.lng
  {}

  /** A border along two parallels and two meridians has inside it what lies between them, its southern and western sides
      included. */
  lemma RectangleIsInside(south: real, north: real, west: real, east: real, p: Point)
    requires south < north && west < east
    ensures Inside([Point(south, west), Point(south, east), Point(north, east), Point(north, west)], p)
            <==> south <= p.lat < north && west <= p.lng < east
  {
    var sw, se, ne, nw := Point(south, west), Point(south, east), Point(north, east), Point(north, west);
    var path := Closed([sw, se, ne, nw]);
    assert path == [nw, sw, se, ne, nw];
    assert path[1..] == [sw, se, ne, nw] && path[1..][1..] == [se, ne, nw] && path[1..][1..][1..] == [ne, nw];
    assert path[1..][1..][1..][1..] == [nw];
    UprightCrosses(sw, nw, p);
    UprightCrosses(ne, se, p);
    assert !Crosses(se, sw, p) && !Crosses(nw, ne, p);
    assert Crossings([ne, nw], p) == 0;
    assert Crossings([se, ne, nw], p) == if Crosses(ne, se, p) then 1 else 0;
    assert Crossings([sw, se, ne, nw], p) == Crossings([se, ne, nw], p);
  }

  // ---------------------------------------------------------------- the nearest border point

  /** A border vertex in km from the point. */
  datatype Vec = Vec(x: real, y: real)

  function Project(v: Point, p: Point, kmLng: real): Vec {
    Vec(Times(v.lng - p.lng, kmLng), Times(v.lat - p.lat, KM_LAT))
  }

  function Square(x: real): real {
    Times(x, x)
  }

  /** The squared distance to the point `t` of the way from a to b. */
  function Dist2(a: Vec, b: Vec, t: real): real {
    Square(Lerp(a.x, b.x, t)) + Square(Lerp(a.y, b.y, t))
  }

  function Len2(a: Vec, b: Vec): real {
    Square(b.x - a.x) + Square(b.y - a.y)
  }

  /** The scalar product of a and b - a. */
  function Dot(a: Vec, b: Vec): real {
    Times(a.x, b.x - a.x) + Times(a.y, b.y - a.y)
  }

  function Clamp(t: real): real {
    if t < 0.0 then 0.0 else if t > 1.0 then 1.0 else t
  }

  function Foot(p: real, q: real): (t: real)
    requires q > 0.0
    ensures 0.0 <= t <= 1.0
  {
    Clamp(-p / q)
  }

  function Nearest(a: Vec, b: Vec): (t: real)
    ensures 0.0 <= t <= 1.0
  {
    if Len2(a, b) > 0.0 then Foot(Dot(a, b), Len2(a, b)) else 0.0
  }

  /** How the squared distance depends on t. */
  function Parabola(p: real, q: real, t: real): real {
    2.0 * Times(t, p) + Times(Square(t), q)
  }

  lemma SquareSign(x: real)
    ensures Square(x) >= 0.0
    ensures Square(x) == 0.0 ==> x == 0.0
  {
    Signs(x, x);
  }

  lemma SquareOfSum(x: real, y: real)
    ensures Square(x + y) == Square(x) + 2.0 * Times(x, y) + Square(y)
  {
    Distribute(x + y, x, y);
    Distribute(x, x, y);
    Distribute(y, x, y);
    Commute(x, y);
  }

  lemma SquareOfProduct(t: real, d: real)
    ensures Square(Times(t, d)) == Times(Square(t), Square(d))
  {
    Associate(t, d, Times(t, d));
    Associate(d, t, d);
    Commute(d, t);
    Associate(t, d, d);
    Associate(t, t, Square(d));
  }

  lemma ExpandAxis(x: real, y: real, t: real)
    ensures Square(Lerp(x, y, t)) == Square(x) + Parabola(Times(x, y - x), Square(y - x), t)
  {
    var d := y - x;
    SquareOfSum(x, Times(t, d));
    SquareOfProduct(t, d);
    Associate(x, t, d);
    Commute(x, t);
    Associate(t, x, d);
  }

  lemma ParabolaSum(p: real, q: real, p': real, q': real, t: real)
    ensures Parabola(p + p', q + q', t) == Parabola(p, q, t) + Parabola(p', q', t)
  {
    Distribute(t, p, p');
    Distribute(Square(t), q, q');
  }

  lemma Expand(a: Vec, b: Vec, t: real)
    ensures Dist2(a, b, t) == Square(a.x) + Square(a.y) + Parabola(Dot(a, b), Len2(a, b), t)
  {
    ExpandAxis(a.x, b.x, t);
    ExpandAxis(a.y, b.y, t);
    ParabolaSum(Times(a.x, b.x - a.x), Square(b.x - a.x), Times(a.y, b.y - a.y), Square(b.y - a.y), t);
  }

  lemma CompleteSquare(v: real, q: real, t: real)
    ensures Parabola(-Times(v, q), q, t) == Times(Square(t - v), q) - Times(Square(v), q)
  {
    SquareOfSum(t - v, v);
    Distribute(v, t, v);
    Commute(t - v, v);
    assert Square(t) == Square(t - v) + 2.0 * Times(v, t) - Square(v);
    Distribute(q, Square(t - v) + 2.0 * Times(v, t), Square(v));
    Distribute(q, Square(t - v), 2.0 * Times(v, t));
    Distribute(q, Times(v, t), Times(v, t));
    Associate(t, v, q);
    Commute(t, v);
    Negate(t, Times(v, q));
  }

  lemma SquareMonotone(x: real, y: real)
    requires 0.0 <= x <= y || y <= x <= 0.0
    ensures Square(x) <= Square(y)
  {
    Signs(y - x, y);
    Signs(x, y - x);
    Distribute(y, y, x);
    Distribute(x, y, x);
    Commute(x, y);
  }

  lemma ClampIsNearest(v: real, s: real)
    requires 0.0 <= s <= 1.0
    ensures Square(Clamp(v) - v) <= Square(s - v)
  {
    if v < 0.0 || v > 1.0 { SquareMonotone(Clamp(v) - v, s - v); } else { SquareSign(s - v); }
  }

  lemma ScaleKeepsOrder(m: real, n: real, q: real)
    requires m <= n && q > 0.0
    ensures Times(m, q) <= Times(n, q)
  {
    Signs(n - m, q);
    Distribute(q, n, m);
  }

  /** For q > 0 the parabola is least over [0, 1] at its foot, clamped. */
  lemma FootIsLeast(p: real, q: real, s: real)
    requires q > 0.0 && 0.0 <= s <= 1.0
    ensures Parabola(p, q, Foot(p, q)) <= Parabola(p, q, s)
  {
    var v := Quotient(-p, q);
    CompleteSquare(v, q, s);
    CompleteSquare(v, q, Clamp(v));
    ClampIsNearest(v, s);
    ScaleKeepsOrder(Square(Clamp(v) - v), Square(s - v), q);
    assert p == -Times(v, q);
  }

  /** The clamped projection is the nearest point of the segment, of a zero-length segment too. */
  lemma NearestIsLeast(a: Vec, b: Vec, s: real)
    requires 0.0 <= s <= 1.0
    ensures Dist2(a, b, Nearest(a, b)) <= Dist2(a, b, s)
  {
    SquareSign(b.x - a.x);
    SquareSign(b.y - a.y);
    Expand(a, b, s);
    Expand(a, b, Nearest(a, b));
    if Len2(a, b) > 0.0 {
      FootIsLeast(Dot(a, b), Len2(a, b), s);
    } else {
      assert b.x == a.x && b.y == a.y;
      LerpSame(a.x, s);
      LerpSame(a.y, s);
      LerpSame(a.x, 0.0);
      LerpSame(a.y, 0.0);
    }
  }

  lemma LerpSame(x: real, t: real)
    ensures Lerp(x, x, t) == x
  {}

  function Before(i: nat, n: nat): nat
    requires i < n
  {
    if i == 0 then n - 1 else i - 1
  }

  /** The squared distance to the point `t` of the way along edge `i`. */
  function EdgeDist2(border: seq<Point>, p: Point, kmLng: real, i: nat, t: real): real
    requires i < |border|
  {
    Dist2(Project(border[Before(i, |border|)], p, kmLng), Project(border[i], p, kmLng), t)
  }

  /** The least squared distance to the first `k` edges. */
  ghost predicate IsLeast(border: seq<Point>, p: Point, kmLng: real, k: nat, best: real)
    requires k <= |border|
  {
    && (exists i: nat, t: real :: i < k && 0.0 <= t <= 1.0 && best == EdgeDist2(border, p, kmLng, i, t))
    && (forall i: nat, t: real :: i < k && 0.0 <= t <= 1.0 ==> best <= EdgeDist2(border, p, kmLng, i, t))
  }

  lemma LeastStep(border: seq<Point>, p: Point, kmLng: real, k: nat, best: Option<real>, d: real)
    requires k < |border|
    requires if k == 0 then best.None? else best.Some? && IsLeast(border, p, kmLng, k, best.value)
    requires exists t: real :: 0.0 <= t <= 1.0 && d == EdgeDist2(border, p, kmLng, k, t)
    requires forall t: real :: 0.0 <= t <= 1.0 ==> d <= EdgeDist2(border, p, kmLng, k, t)
    ensures IsLeast(border, p, kmLng, k + 1, if best.Some? && best.value <= d then best.value else d)
  {}

  lemma EdgeLeast(border: seq<Point>, p: Point, kmLng: real, i: nat, d: real)
    requires i < |border|
    requires var a, b := Project(border[Before(i, |border|)], p, kmLng), Project(border[i], p, kmLng);
             d == Dist2(a, b, Nearest(a, b))
    ensures exists t: real :: 0.0 <= t <= 1.0 && d == EdgeDist2(border, p, kmLng, i, t)
    ensures forall t: real :: 0.0 <= t <= 1.0 ==> d <= EdgeDist2(border, p, kmLng, i, t)
  {
    var a, b := Project(border[Before(i, |border|)], p, kmLng), Project(border[i], p, kmLng);
    assert d == EdgeDist2(border, p, kmLng, i, Nearest(a, b));
    forall s: real | 0.0 <= s <= 1.0 ensures d <= EdgeDist2(border, p, kmLng, i, s) {
      NearestIsLeast(a, b, s);
    }
  }

  /** The squared distance in km to the nearest point of the whole closed border; none if there is no border. */
  method KmToBorder2(border: seq<Point>, p: Point, kmLng: real) returns (best: Option<real>)
    ensures best.None? <==> border == []
    ensures best.Some? ==> IsLeast(border, p, kmLng, |border|, best.value)
  {
    best := None;
    var n := |border|;
    var i, j := 0, n - 1;
    while i < n
      invariant 0 <= i <= n && j == (if i == 0 then n - 1 else i - 1)
      invariant if i == 0 then best.None? else best.Some? && IsLeast(border, p, kmLng, i, best.value)
    {
      var a, b := Project(border[j], p, kmLng), Project(border[i], p, kmLng);
      var d := Dist2(a, b, Nearest(a, b));
      EdgeLeast(border, p, kmLng, i, d);
      LeastStep(border, p, kmLng, i, best, d);
      if best.None? || d < best.value { best := Some(d); }
      j, i := i, i + 1;
    }
  }

  // ---------------------------------------------------------------- the service area

  /** Some point of the border lies within the margin. */
  ghost predicate NearBorder(border: seq<Point>, p: Point, kmLng: real) {
    exists i: nat, t: real :: i < |border| && 0.0 <= t <= 1.0
      && EdgeDist2(border, p, kmLng, i, t) <= BORDER_MARGIN_KM * BORDER_MARGIN_KM
  }

  /** Finite coordinates inside the border or near it. */
  ghost predicate Serves(border: seq<Point>, lat: Number, lng: Number, kmLng: real) {
    && lat.Finite? && lng.Finite?
    && (Inside(border, Point(lat.value, lng.value)) || NearBorder(border, Point(lat.value, lng.value), kmLng))
  }

  method IsInServiceArea(border: seq<Point>, lat: Number, lng: Number, kmLng: real) returns (served: bool)
    ensures served <==> Serves(border, lat, lng, kmLng)
  {
    if lat.NonFinite? || lng.NonFinite? { return false; }
    var p := Point(lat.value, lng.value);
    served := InsideBorder(border, p);
    if !served {
      var best := KmToBorder2(border, p, kmLng);
      served := best.Some? && best.value <= BORDER_MARGIN_KM * BORDER_MARGIN_KM;
    }
  }

  // ---------------------------------------------------------------- distances on the map

  /** The point `t` of the way from u to v on the map. */
  function On(u: Point, v: Point, t: real): Point {
    Point(u.lat + t * (v.lat - u.lat), u.lng + t * (v.lng - u.lng))
  }

  /** A point of edge `i`; edge 0 closes the border. */
  function BorderPoint(border: seq<Point>, i: nat, t: real): Point
    requires i < |border|
  {
    On(border[if i == 0 then |border| - 1 else i - 1], border[i], t)
  }

  /** The square of the km between two points, at 111.32 km a degree of latitude and `kmLng` km a degree of longitude. */
  function Km2(u: Point, p: Point, kmLng: real): real {
    Square((u.lng - p.lng) * kmLng) + Square((u.lat - p.lat) * 111.32)
  }

  lemma AxisDistance(u: real, v: real, p: real, scale: real, t: real)
    ensures Lerp(Times(u - p, scale), Times(v - p, scale), t) == (u + t * (v - u) - p) * scale
  {
    Distribute(scale, v - p, u - p);
    assert Times(v - p, scale) - Times(u - p, scale) == Times(v - u, scale);
    Associate(t, v - u, scale);
    Distribute(scale, u - p, Times(t, v - u));
  }

  /** The distances compared are those to the points of the edge on the map. */
  lemma EdgeDistanceIs(border: seq<Point>, p: Point, kmLng: real, i: nat, t: real)
    requires i < |border|
    ensures EdgeDist2(border, p, kmLng, i, t) == Km2(BorderPoint(border, i, t), p, kmLng)
  {
    var u, v := border[Before(i, |border|)], border[i];
    AxisDistance(u.lng, v.lng, p.lng, kmLng, t);
    AxisDistance(u.lat, v.lat, p.lat, 111.32, t);
  }

  /** Served are the points with finite coordinates that are inside the border or at most 10 km from some point of it,
      its closing edge included. */
  lemma ServedIff(border: seq<Point>, lat: Number, lng: Number, kmLng: real)
    ensures Serves(border, lat, lng, kmLng) <==>
            && lat.Finite? && lng.Finite?
            && var p := Point(lat.value, lng.value);
               Inside(border, p) ||
               exists i: nat, t: real :: i < |border| && 0.0 <= t <= 1.0 && Km2(BorderPoint(border, i, t), p, kmLng) <= 100.0
  {
    if lat.Finite? && lng.Finite? {
      var p := Point(lat.value, lng.value);
      forall i: nat, t: real | i < |border| ensures EdgeDist2(border, p, kmLng, i, t) == Km2(BorderPoint(border, i, t), p, kmLng) {
        EdgeDistanceIs(border, p, kmLng, i, t);
      }
    }
  }

  // ---------------------------------------------------------------- the whole answer, start and direction

  lemma DistBack(a: Vec, b: Vec, t: real)
    ensures Dist2(a, b, t) == Dist2(b, a, 1.0 - t)
  {
    LerpBack(a.x, b.x, t);
    LerpBack(a.y, b.y, t);
  }

  lemma {:induction false} ReversedAt(path: seq<Point>, k: nat)
    requires k < |path|
    ensures |Reversed(path)| == |path| && Reversed(path)[k] == path[|path| - 1 - k]
  {
    ReversedEnds(path);
    if k < |path| - 1 { ReversedAt(path[1..], k); ReversedEnds(path[1..]); }
  }

  lemma NearRotates(a: seq<Point>, b: seq<Point>, p: Point, kmLng: real)
    requires NearBorder(a + b, p, kmLng)
    ensures NearBorder(b + a, p, kmLng)
  {
    var i: nat, t: real :| i < |a + b| && 0.0 <= t <= 1.0
      && EdgeDist2(a + b, p, kmLng, i, t) <= BORDER_MARGIN_KM * BORDER_MARGIN_KM;
    var k := if i < |a| then i + |b| else i - |a|;
    var n := |a + b|;
    assert (b + a)[k] == (a + b)[i] && (b + a)[Before(k, n)] == (a + b)[Before(i, n)];
    assert EdgeDist2(b + a, p, kmLng, k, t) == EdgeDist2(a + b, p, kmLng, i, t);
  }

  lemma {:induction false} ReversedTwice(path: seq<Point>)
    ensures Reversed(Reversed(path)) == path
  {
    if path != [] { ReversedEnds(path); }
    forall k | 0 <= k < |path| ensures |Reversed(Reversed(path))| == |path| && Reversed(Reversed(path))[k] == path[k] {
      ReversedAt(path, |path| - 1 - k);
      ReversedAt(Reversed(path), k);
    }
  }

  lemma NearReverses(border: seq<Point>, p: Point, kmLng: real)
    requires NearBorder(border, p, kmLng)
    ensures NearBorder(Reversed(border), p, kmLng)
  {
    var i: nat, t: real :| i < |border| && 0.0 <= t <= 1.0
      && EdgeDist2(border, p, kmLng, i, t) <= BORDER_MARGIN_KM * BORDER_MARGIN_KM;
    var n := |border|;
    var k := if i == 0 then 0 else n - i;
    ReversedEnds(border);
    ReversedAt(border, k);
    ReversedAt(border, Before(k, n));
    var r := Reversed(border);
    assert r[k] == border[Before(i, n)] && r[Before(k, n)] == border[i];
    DistBack(Project(border[Before(i, n)], p, kmLng), Project(border[i], p, kmLng), t);
    assert EdgeDist2(r, p, kmLng, k, 1.0 - t) == EdgeDist2(border, p, kmLng, i, t);
  }

  /** Which vertex the border starts at and which way it runs change neither half of the answer. */
  lemma ServiceAreaIsOfTheShape(a: seq<Point>, b: seq<Point>, p: Point, kmLng: real)
    ensures Inside(a + b, p) == Inside(b + a, p) == Inside(Reversed(a + b), p)
    ensures NearBorder(a + b, p, kmLng) == NearBorder(b + a, p, kmLng) == NearBorder(Reversed(a + b), p, kmLng)
  {
    StartDoesNotMatter(a, b, p);
    DirectionDoesNotMatter(a + b, p);
    if NearBorder(a + b, p, kmLng) { NearRotates(a, b, p, kmLng); NearReverses(a + b, p, kmLng); }
    if NearBorder(b + a, p, kmLng) { NearRotates(b, a, p, kmLng); }
    if NearBorder(Reversed(a + b), p, kmLng) { NearReverses(Reversed(a + b), p, kmLng); ReversedTwice(a + b); }
  }
}
