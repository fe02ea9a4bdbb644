/**
 * The point-set builders of SnowFlake: filled shapes, the clamped jagged
 * line, and the add and remove operations that mirror every point across
 * the line y = x.  Point lists are sequences; a C# List passed in and
 * mutated is an input sequence and the updated one is returned.
 */
module Shapes {
  import opened Common
  import Chance

  /** The flake radii a snowflake may have, and the largest of them. */
  const FlakeSizes: seq<int> := [20, 15, 7, 3]
  const MaxFlakeRadius: int := 20

  lemma MaxFlakeRadiusIsMax()
    ensures MaxFlakeRadius in FlakeSizes
    ensures forall s :: s in FlakeSizes ==> s <= MaxFlakeRadius
  {
  }

  function Abs(v: int): nat
  {
    if v < 0 then -v else v
  }

  // ---------------------------------------------------------------------
  // Filled shapes

  datatype ShapeKind = Square | Circle | Diamond

  /** The shape chosen by a draw of Random.Int(1, 3). */
  function KindOf(draw: int): ShapeKind
    requires 1 <= draw <= 3
  {
    if draw == 1 then Square else if draw == 2 then Circle else Diamond
  }

  lemma SquareMono(a: int, b: int)
    requires 0 <= a <= b
    ensures a * a <= b * b
  {
    assert b * b - a * a == (b - a) * (b + a);
  }

  /** The integer square root, as (int)Math.Sqrt computes it for the small values used here. */
  function FloorSqrt(n: nat): (r: nat)
    ensures r * r <= n < (r + 1) * (r + 1)
  {
    if n == 0 then 0
    else
      var s := FloorSqrt(n - 1);
      assert (s + 2) * (s + 2) == (s + 1) * (s + 1) + 2 * s + 3;
      if (s + 1) * (s + 1) <= n then s + 1 else s
  }

  lemma AtMostFloorSqrt(t: nat, n: nat)
    ensures t <= FloorSqrt(n) <==> t * t <= n
  {
    var s := FloorSqrt(n);
    if t <= s {
      SquareMono(t, s);
    } else {
      SquareMono(s + 1, t);
    }
  }

  /** Half the height of the column at x of a shape of radius r, as the builders compute it. */
  function Height(kind: ShapeKind, r: int, x: int): int
    requires Abs(x) <= r
  {
    match kind
    case Square => r
    case Circle => SquareMono(Abs(x), r); FloorSqrt(r * r - x * x)
    case Diamond => r - Abs(x)
  }

  /** The shapes as regions of the integer grid. */
  predicate InShape(kind: ShapeKind, r: int, x: int, y: int)
  {
    match kind
    case Square => Abs(x) <= r && Abs(y) <= r
    case Circle => Abs(x) <= r && x * x + y * y <= r * r
    case Diamond => Abs(x) + Abs(y) <= r
  }

  /** A column of height Height(kind, r, x) is exactly the shape's slice at x. */
  lemma HeightIsShape(kind: ShapeKind, r: int, x: int, y: int)
    requires Abs(x) <= r
    ensures Abs(y) <= Height(kind, r, x) <==> InShape(kind, r, x, y)
  {
    if kind == Circle {
      SquareMono(Abs(x), r);
      assert Abs(y) * Abs(y) == y * y;
      AtMostFloorSqrt(Abs(y), r * r - x * x);
    }
  }

  lemma SquareBound(a: int, r: int)
    requires r >= 0 && a * a <= r * r
    ensures Abs(a) <= r
  {
    if Abs(a) > r {
      assert Abs(a) * Abs(a) == a * a;
      assert (r + 1) * (r + 1) == r * r + 2 * r + 1;
      SquareMono(r + 1, Abs(a));
    }
  }

  /** Every shape is symmetric across y = x, so mirroring a shape gives the same shape. */
  lemma ShapeMirrorSymmetric(kind: ShapeKind, r: int, x: int, y: int)
    ensures InShape(kind, r, x, y) <==> InShape(kind, r, y, x)
  {
    if kind == Circle && r >= 0 {
      var xx, yy := x * x, y * y;
      assert xx >= 0 && yy >= 0 by {
        SquareMono(0, Abs(x));
        SquareMono(0, Abs(y));
        assert Abs(x) * Abs(x) == xx && Abs(y) * Abs(y) == yy;
      }
      if xx + yy <= r * r {
        SquareBound(x, r);
        SquareBound(y, r);
      }
    }
  }

  predicate Distinct(s: seq<Point>)
  {
    forall i, j :: 0 <= i < j < |s| ==> s[i] != s[j]
  }

  /** The points of s are exactly the shape of the given kind. */
  ghost predicate Covers(s: seq<Point>, kind: ShapeKind, r: int)
  {
    forall p :: p in s <==> InShape(kind, r, p.x, p.y)
  }

  /** The points of s are exactly the part of the shape in the first quadrant (x, y >= 0). */
  ghost predicate CoversQuarter(s: seq<Point>, kind: ShapeKind, r: int)
  {
    forall p :: p in s <==> 0 <= p.x && 0 <= p.y && InShape(kind, r, p.x, p.y)
  }

  /** The filled shape, column by column from x = -r to r, each column from y = -h to h. */
  method FullShape(kind: ShapeKind, radius: int) returns (s: seq<Point>)
    ensures Covers(s, kind, radius) && Distinct(s)
  {
    s := [];
    var x := -radius;
    while x <= radius
      invariant radius >= 0 ==> -radius <= x <= radius + 1
      invariant forall p :: p in s <==> -radius <= p.x < x && Abs(p.x) <= radius && Abs(p.y) <= Height(kind, radius, p.x)
      invariant Distinct(s)
    {
      var height := Height(kind, radius, x);
      var y := -height;
      while y <= height
        invariant -height <= y <= height + 1
        invariant forall p :: p in s <==>
          (-radius <= p.x < x && Abs(p.x) <= radius && Abs(p.y) <= Height(kind, radius, p.x))
          || (p.x == x && -height <= p.y < y)
        invariant Distinct(s)
      {
        s := s + [Point(x, y)];
        y := y + 1;
      }
      x := x + 1;
    }
    forall p | true
      ensures p in s <==> InShape(kind, radius, p.x, p.y)
    {
      if Abs(p.x) <= radius {
        HeightIsShape(kind, radius, p.x, p.y);
      }
    }
  }

  /** The first-quadrant part of the filled shape, column by column from x = 0 to r. */
  method QuarterShape(kind: ShapeKind, radius: int) returns (s: seq<Point>)
    ensures CoversQuarter(s, kind, radius) && Distinct(s)
  {
    s := [];
    var x := 0;
    while x <= radius
      invariant 0 <= x && (radius >= 0 ==> x <= radius + 1)
      invariant forall p :: p in s <==> 0 <= p.x < x && p.x <= radius && 0 <= p.y <= Height(kind, radius, p.x)
      invariant Distinct(s)
    {
      var height := Height(kind, radius, x);
      var y := 0;
      while y <= height
        invariant 0 <= y <= height + 1
        invariant forall p :: p in s <==>
          (0 <= p.x < x && p.x <= radius && 0 <= p.y <= Height(kind, radius, p.x)) || (p.x == x && 0 <= p.y < y)
        invariant Distinct(s)
      {
        s := s + [Point(x, y)];
        y := y + 1;
      }
      x := x + 1;
    }
    forall p | true
      ensures p in s <==> 0 <= p.x && 0 <= p.y && InShape(kind, radius, p.x, p.y)
    {
      if 0 <= p.x <= radius {
        HeightIsShape(kind, radius, p.x, p.y);
      }
    }
  }

  /** GetRandomShape: a square, circle or diamond of the given radius, chosen at random. */
  method GetRandomShape(radius: int) returns (s: seq<Point>)
    ensures exists kind :: Covers(s, kind, radius)
    ensures Distinct(s)
  {
    var draw := Chance.Int(1, 3);
    s := FullShape(KindOf(draw), radius);
  }

  /** GetRandomQuarterShape: the first-quadrant part of a random shape. */
  method GetRandomQuarterShape(radius: int) returns (s: seq<Point>)
    ensures exists kind :: CoversQuarter(s, kind, radius)
    ensures Distinct(s)
  {
    var draw := Chance.Int(1, 3);
    s := QuarterShape(KindOf(draw), radius);
  }

  // ---------------------------------------------------------------------
  // The jagged line

  /** Point i of the line is at most 3 above or below point i - 1. */
  predicate SmallStep(line: seq<Point>, i: int)
    requires 0 < i < |line|
  {
    -3 <= line[i].y - line[i - 1].y <= 3
  }

  /**
   * A random walk from (0, 0) along x = 0 .. radius - 1, each step moving y
   * by a draw of [-3, 3] and then clamping it between y = 0 and y = x.
   */
  method CreateJaggedLine(radius: int) returns (line: seq<Point>)
    ensures |line| == if radius > 0 then radius else 0
    ensures forall i :: 0 <= i < |line| ==> line[i].x == i && 0 <= line[i].y <= i
    ensures forall i :: 0 < i < |line| ==> SmallStep(line, i)
  {
    line := [];
    var y := 0;
    var x := 0;
    while x < radius
      invariant 0 <= x <= (if radius > 0 then radius else 0) && |line| == x
      invariant forall i :: 0 <= i < x ==> line[i].x == i && 0 <= line[i].y <= i
      invariant forall i :: 0 < i < x ==> SmallStep(line, i)
      invariant x > 0 ==> y == line[x - 1].y
      invariant x == 0 ==> y == 0
    {
      ghost var previous := y;
      var maxY := x;
      var step := Chance.Int(-3, 3);
      y := y + step;
      if y > maxY {
        y := maxY;
      } else if y < 0 {
        y := 0;
      }
      assert 0 <= y <= x && -3 <= y - previous <= 3;
      ghost var before := line;
      line := line + [Point(x, y)];
      forall i | 0 < i <= x
        ensures SmallStep(line, i)
      {
        if i < x {
          assert SmallStep(before, i);
        }
      }
      x := x + 1;
    }
  }

  // ---------------------------------------------------------------------
  // Adding and removing mirrored points

  /** The reflection across y = x. */
  function Mirror(p: Point): Point
  {
    Point(p.y, p.x)
  }

  function Mirrored(s: seq<Point>): (r: seq<Point>)
    ensures |r| == |s|
  {
    seq(|s|, i requires 0 <= i < |s| => Mirror(s[i]))
  }

  /** The reflection loop shared by AddPixel and RemovePixel. */
  method Reflect(s: seq<Point>) returns (reflected: seq<Point>)
    ensures reflected == Mirrored(s)
  {
    reflected := [];
    for i := 0 to |s|
      invariant reflected == Mirrored(s[..i])
    {
      reflected := reflected + [Point(s[i].y, s[i].x)];
    }
  }

  /** AddPixel: appends the points, then their mirror images, to the flake. */
  method AddPixel(adding: seq<Point>, flake: seq<Point>) returns (r: seq<Point>)
    ensures r == flake + adding + Mirrored(adding)
  {
    var reflected := Reflect(adding);
    var toAdd := adding + reflected;
    r := flake;
    for i := 0 to |toAdd|
      invariant r == flake + toAdd[..i]
    {
      r := r + [toAdd[i]];
    }
    assert toAdd[..|toAdd|] == adding + Mirrored(adding);
  }

  /** List.IndexOf: the first index holding p, or -1. */
  method IndexOf(s: seq<Point>, p: Point) returns (i: int)
    ensures -1 <= i < |s|
    ensures i == -1 <==> p !in s
    ensures i >= 0 ==> s[i] == p && p !in s[..i]
  {
    i := 0;
    while i < |s| && s[i] != p
      invariant 0 <= i <= |s| && p !in s[..i]
    {
      i := i + 1;
    }
    if i == |s| {
      assert s[..i] == s;
      i := -1;
    }
  }

  /** List.Remove: deletes the first occurrence of p, if any, and says whether it did. */
  method RemoveFirst(s: seq<Point>, p: Point) returns (r: seq<Point>, removed: bool)
    ensures removed <==> p in s
    ensures !removed ==> r == s
    ensures removed ==> exists i :: 0 <= i < |s| && s[i] == p && p !in s[..i] && r == s[..i] + s[i + 1..]
    ensures multiset(r) == multiset(s) - multiset{p}
  {
    var i := IndexOf(s, p);
    if i < 0 {
      r, removed := s, false;
      assert multiset(s)[p] == 0;
    } else {
      r, removed := s[..i] + s[i + 1..], true;
      assert s == s[..i] + [p] + s[i + 1..];
      assert multiset(s) == multiset(r) + multiset{p};
    }
  }

  lemma DiffStep(m: multiset<Point>, s: seq<Point>, i: nat)
    requires i < |s|
    ensures m - multiset(s[..i]) - multiset{s[i]} == m - multiset(s[..i + 1])
  {
    assert s[..i + 1] == s[..i] + [s[i]];
  }

  /** The removal loop of RemovePixel: List.Remove of each point in turn. */
  method RemoveEach(toRemove: seq<Point>, flake: seq<Point>) returns (r: seq<Point>)
    ensures multiset(r) == multiset(flake) - multiset(toRemove)
    ensures |flake| - |toRemove| <= |r| <= |flake|
  {
    r := flake;
    for i := 0 to |toRemove|
      invariant multiset(r) == multiset(flake) - multiset(toRemove[..i])
      invariant |flake| - i <= |r| <= |flake|
    {
      var removed;
      r, removed := RemoveFirst(r, toRemove[i]);
      DiffStep(multiset(flake), toRemove, i);
    }
    assert toRemove[..|toRemove|] == toRemove;
  }

  /** RemovePixel: removes the first occurrence of each point, then of each mirror image. */
  method RemovePixel(removing: seq<Point>, flake: seq<Point>) returns (r: seq<Point>)
    ensures multiset(r) == multiset(flake) - multiset(removing + Mirrored(removing))
    ensures |flake| - 2 * |removing| <= |r| <= |flake|
  {
    var reflected := Reflect(removing);
    r := RemoveEach(removing + reflected, flake);
  }

  // ---------------------------------------------------------------------
  // Mirror symmetry of a flake

  /** Every point occurs as often as its mirror image. */
  ghost predicate MirrorBalanced(m: multiset<Point>)
  {
    forall p :: m[p] == m[Mirror(p)]
  }

  /** A list followed by its mirror images is balanced. */
  lemma {:induction false} PairsBalanced(s: seq<Point>)
    ensures MirrorBalanced(multiset(s + Mirrored(s)))
  {
    if s == [] {
      assert s + Mirrored(s) == [];
    } else {
      var t, x := s[..|s| - 1], s[|s| - 1];
      PairsBalanced(t);
      assert s == t + [x];
      assert Mirrored(s) == Mirrored(t) + [Mirror(x)];
      assert multiset(s + Mirrored(s)) == multiset(t + Mirrored(t)) + multiset{x, Mirror(x)};
    }
  }

  /** AddPixel keeps a balanced flake balanced. */
  lemma AddPixelKeepsBalance(flake: seq<Point>, adding: seq<Point>)
    requires MirrorBalanced(multiset(flake))
    ensures MirrorBalanced(multiset(flake + adding + Mirrored(adding)))
  {
    PairsBalanced(adding);
    assert flake + adding + Mirrored(adding) == flake + (adding + Mirrored(adding));
  }

  /** RemovePixel keeps a balanced flake balanced. */
  lemma RemovePixelKeepsBalance(flake: seq<Point>, removing: seq<Point>)
    requires MirrorBalanced(multiset(flake))
    ensures MirrorBalanced(multiset(flake) - multiset(removing + Mirrored(removing)))
  {
    PairsBalanced(removing);
  }
}
