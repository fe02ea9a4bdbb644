/**
 * The rotation tables of SnowFlake.  Table `angle` is a matrix of point
 * lists indexed by (y + MaxFlakeRadius, x + MaxFlakeRadius): the cell of a
 * first-quadrant flake pixel lists the screen offsets to light when the
 * flake is turned by `angle` degrees.  The trigonometric rotation is an
 * abstract function parameter; a null cell of the C# matrix is an empty
 * sequence here.
 */
module Rotation {
  import opened Common
  import opened Shapes

  /** Rows and columns of each rotation matrix. */
  const Dim: int := 2 * MaxFlakeRadius + 1

  /** Number of rotation tables, one per degree of a quarter turn. */
  const Angles: int := 90

  /** A quarter turn, (x, y) to (y, -x), as the closure pass computes it. */
  function Rot90(p: Point): Point
  {
    Point(p.y, -p.x)
  }

  predicate FirstQuadrant(i: int, j: int)
  {
    MaxFlakeRadius <= i && MaxFlakeRadius <= j
  }

  /** The cell (i, j), or the empty list outside the matrix. */
  ghost function Cell(m: array2<seq<Point>>, i: int, j: int): seq<Point>
    reads m
  {
    if 0 <= i < m.Length0 && 0 <= j < m.Length1 then m[i, j] else []
  }

  /**
   * The shape every table keeps: cells outside the first quadrant stay
   * empty and no cell lists a point twice.
   */
  ghost predicate WellFormed(m: array2<seq<Point>>)
    reads m
  {
    forall i, j :: 0 <= i < m.Length0 && 0 <= j < m.Length1 ==>
      (FirstQuadrant(i, j) || m[i, j] == []) && Distinct(m[i, j])
  }

  // ---------------------------------------------------------------------
  // Phase 1: sampling the rotation

  /**
   * Files mapPoint under the cell of its back-rotated position `turn(mapPoint)`
   * when that cell is in the matrix and in the first quadrant, unless the
   * cell lists it already.  No other cell changes.
   */
  method MapRotatedPoint(mapPoint: Point, turn: Point -> Point, m: array2<seq<Point>>)
    modifies m
    ensures var row, col := turn(mapPoint).y + MaxFlakeRadius, turn(mapPoint).x + MaxFlakeRadius;
      forall i, j :: 0 <= i < m.Length0 && 0 <= j < m.Length1 ==>
        m[i, j] == (if i == row && j == col && FirstQuadrant(i, j) && mapPoint !in old(m[i, j])
                    then old(m[i, j]) + [mapPoint] else old(m[i, j]))
    ensures old(WellFormed(m)) ==> WellFormed(m)
  {
    var rotated := turn(mapPoint);
    var row := rotated.y + MaxFlakeRadius;
    var col := rotated.x + MaxFlakeRadius;
    if col >= MaxFlakeRadius && col < m.Length1 && row >= MaxFlakeRadius && row < m.Length0 {
      if mapPoint !in m[row, col] {
        m[row, col] := m[row, col] + [mapPoint];
      }
    }
  }

  // ---------------------------------------------------------------------
  // Phase 2: filling an empty cell from its neighbours

  function SumX(s: seq<Point>): int
  {
    if s == [] then 0 else SumX(s[..|s| - 1]) + s[|s| - 1].x
  }

  function SumY(s: seq<Point>): int
  {
    if s == [] then 0 else SumY(s[..|s| - 1]) + s[|s| - 1].y
  }

  /**
   * Math.Round of a / n to the nearest integer, halves to the even one.  The
   * values involved are small integers, so rounding the float quotient
   * gives the same result as rounding the exact one.
   */
  function RoundHalfEven(a: int, n: int): (r: int)
    requires n > 0
    ensures 2 * Abs(a - r * n) <= n
    ensures 2 * Abs(a - r * n) == n ==> r % 2 == 0
  {
    var q, rem := a / n, a % n;
    assert a - q * n == rem && (q + 1) * n == q * n + n;
    if 2 * rem < n then q
    else if 2 * rem > n then q + 1
    else if q % 2 == 0 then q
    else q + 1
  }

  /** The rounded mean of a non-empty list of points. */
  function Mean(s: seq<Point>): Point
    requires |s| > 0
  {
    Point(RoundHalfEven(SumX(s), |s|), RoundHalfEven(SumY(s), |s|))
  }

  /** The points of the four diagonal neighbours of (row, col) that lie in the matrix. */
  ghost function Diagonals(m: array2<seq<Point>>, row: int, col: int): seq<Point>
    reads m
  {
    Cell(m, row - 1, col - 1) + Cell(m, row - 1, col + 1) + Cell(m, row + 1, col - 1) + Cell(m, row + 1, col + 1)
  }

  /** The coordinate sums of a concatenation are the sums of its parts. */
  lemma {:induction false} SumAppend(a: seq<Point>, b: seq<Point>)
    ensures SumX(a + b) == SumX(a) + SumX(b) && SumY(a + b) == SumY(a) + SumY(b)
    decreases |b|
  {
    if b != [] {
      var b' := b[..|b| - 1];
      assert (a + b)[..|a + b| - 1] == a + b';
      SumAppend(a, b');
    } else {
      assert a + b == a;
    }
  }

  /** The coordinate sums of one cell's points. */
  method AddCell(cell: seq<Point>) returns (sx: int, sy: int)
    ensures sx == SumX(cell) && sy == SumY(cell)
  {
    sx, sy := 0, 0;
    for t := 0 to |cell|
      invariant sx == SumX(cell[..t]) && sy == SumY(cell[..t])
    {
      assert cell[..t + 1][..t] == cell[..t];
      sx, sy := sx + cell[t].x, sy + cell[t].y;
    }
    assert cell[..|cell|] == cell;
  }

  // What the window loop has added after visiting row i up to column j:
  // the x sum, y sum and count of the counted diagonal cells of that row.

  ghost function RowX(m: array2<seq<Point>>, row: int, col: int, i: int, j: int): int
    reads m
  {
    if i == row then 0
    else (if col - 1 < j then SumX(Cell(m, i, col - 1)) else 0) + (if col + 1 < j then SumX(Cell(m, i, col + 1)) else 0)
  }

  ghost function RowY(m: array2<seq<Point>>, row: int, col: int, i: int, j: int): int
    reads m
  {
    if i == row then 0
    else (if col - 1 < j then SumY(Cell(m, i, col - 1)) else 0) + (if col + 1 < j then SumY(Cell(m, i, col + 1)) else 0)
  }

  ghost function RowN(m: array2<seq<Point>>, row: int, col: int, i: int, j: int): int
    reads m
  {
    if i == row then 0
    else (if col - 1 < j then |Cell(m, i, col - 1)| else 0) + (if col + 1 < j then |Cell(m, i, col + 1)| else 0)
  }

  /** Visiting cell (i, j) of the window adds that cell when it is counted. */
  lemma RowStep(m: array2<seq<Point>>, row: int, col: int, i: int, j: int)
    requires 0 <= i < m.Length0 && 0 <= j < m.Length1 && col - 1 <= j <= col + 1
    ensures var counted := i != row && j != col;
      && RowX(m, row, col, i, j + 1) == RowX(m, row, col, i, j) + (if counted then SumX(m[i, j]) else 0)
      && RowY(m, row, col, i, j + 1) == RowY(m, row, col, i, j) + (if counted then SumY(m[i, j]) else 0)
      && RowN(m, row, col, i, j + 1) == RowN(m, row, col, i, j) + (if counted then |m[i, j]| else 0)
  {
  }

  // What the window loop has added before row i.

  ghost function WindowX(m: array2<seq<Point>>, row: int, col: int, i: int): int
    reads m
  {
    (if row - 1 < i then RowX(m, row, col, row - 1, col + 2) else 0) + (if row + 1 < i then RowX(m, row, col, row + 1, col + 2) else 0)
  }

  ghost function WindowY(m: array2<seq<Point>>, row: int, col: int, i: int): int
    reads m
  {
    (if row - 1 < i then RowY(m, row, col, row - 1, col + 2) else 0) + (if row + 1 < i then RowY(m, row, col, row + 1, col + 2) else 0)
  }

  ghost function WindowN(m: array2<seq<Point>>, row: int, col: int, i: int): int
    reads m
  {
    (if row - 1 < i then RowN(m, row, col, row - 1, col + 2) else 0) + (if row + 1 < i then RowN(m, row, col, row + 1, col + 2) else 0)
  }

  /** Visiting row i of the window adds that row. */
  lemma WindowStep(m: array2<seq<Point>>, row: int, col: int, i: int)
    requires row - 1 <= i <= row + 1
    ensures WindowX(m, row, col, i + 1) == WindowX(m, row, col, i) + RowX(m, row, col, i, col + 2)
    ensures WindowY(m, row, col, i + 1) == WindowY(m, row, col, i) + RowY(m, row, col, i, col + 2)
    ensures WindowN(m, row, col, i + 1) == WindowN(m, row, col, i) + RowN(m, row, col, i, col + 2)
  {
  }

  /** The whole window adds up the diagonal neighbours. */
  lemma WindowIsDiagonals(m: array2<seq<Point>>, row: int, col: int)
    ensures var d := Diagonals(m, row, col);
      WindowX(m, row, col, row + 2) == SumX(d) && WindowY(m, row, col, row + 2) == SumY(d)
      && WindowN(m, row, col, row + 2) == |d|
  {
    var c1, c2 := Cell(m, row - 1, col - 1), Cell(m, row - 1, col + 1);
    var c3, c4 := Cell(m, row + 1, col - 1), Cell(m, row + 1, col + 1);
    SumAppend(c1, c2);
    SumAppend(c1 + c2, c3);
    SumAppend(c1 + c2 + c3, c4);
  }

  /** One row of the window loop: sums and counts the points of the counted cells of row i. */
  method SumRow(row: int, column: int, m: array2<seq<Point>>, i: int) returns (sx: int, sy: int, n: int)
    requires 0 <= i < m.Length0 && 0 <= column < m.Length1
    ensures sx == RowX(m, row, column, i, column + 2) && sy == RowY(m, row, column, i, column + 2)
    ensures n == RowN(m, row, column, i, column + 2)
  {
    sx, sy, n := 0, 0, 0;
    var jMin := if column - 1 > 0 then column - 1 else 0;
    var jMax := if column + 1 < m.Length1 - 1 then column + 1 else m.Length1 - 1;
    var j := jMin;
    while j <= jMax
      invariant jMin <= j <= jMax + 1
      invariant sx == RowX(m, row, column, i, j) && sy == RowY(m, row, column, i, j) && n == RowN(m, row, column, i, j)
    {
      RowStep(m, row, column, i, j);
      if i != row && j != column {
        var cx, cy := AddCell(m[i, j]);
        sx, sy, n := sx + cx, sy + cy, n + |m[i, j]|;
      }
      j := j + 1;
    }
  }

  /** The window loop: sums and counts the points of the diagonal neighbours of (row, column). */
  method SumWindow(row: int, column: int, m: array2<seq<Point>>) returns (sx: int, sy: int, n: int)
    requires 0 <= row < m.Length0 && 0 <= column < m.Length1
    ensures var d := Diagonals(m, row, column);
      sx == SumX(d) && sy == SumY(d) && n == |d|
  {
    sx, sy, n := 0, 0, 0;
    var iMin := if row - 1 > 0 then row - 1 else 0;
    var iMax := if row + 1 < m.Length0 - 1 then row + 1 else m.Length0 - 1;
    var i := iMin;
    while i <= iMax
      invariant iMin <= i <= iMax + 1
      invariant sx == WindowX(m, row, column, i) && sy == WindowY(m, row, column, i) && n == WindowN(m, row, column, i)
    {
      WindowStep(m, row, column, i);
      var rx, ry, rn := SumRow(row, column, m, i);
      sx, sy, n := sx + rx, sy + ry, n + rn;
      i := i + 1;
    }
    WindowIsDiagonals(m, row, column);
  }

  /**
   * Adds to cell (row, column) the rounded mean of the points listed in its
   * diagonal neighbours (the window test `i != row && j != column` skips
   * the four orthogonal ones), or nothing when those cells are all empty.
   */
  method GetAverageOfSurroundingPoints(row: int, column: int, m: array2<seq<Point>>)
    requires 0 <= row < m.Length0 && 0 <= column < m.Length1
    modifies m
    ensures var d := old(Diagonals(m, row, column));
      m[row, column] == old(m[row, column]) + (if |d| > 0 then [Mean(d)] else [])
    ensures forall i, j :: 0 <= i < m.Length0 && 0 <= j < m.Length1 && (i != row || j != column) ==>
      m[i, j] == old(m[i, j])
  {
    var sx, sy, n := SumWindow(row, column, m);
    if n > 0 {
      var average := Point(RoundHalfEven(sx, n), RoundHalfEven(sy, n));
      m[row, column] := m[row, column] + [average];
    }
  }

  // ---------------------------------------------------------------------
  // Phase 3: closing each cell under quarter turns

  /** p turned t quarter turns. */
  function Turned(p: Point, t: nat): Point
  {
    if t == 0 then p else Rot90(Turned(p, t - 1))
  }

  /** The first t quarter turns of p, in the order the closure loop tries them. */
  function Turns(p: Point, t: nat): seq<Point>
  {
    if t == 0 then [] else Turns(p, t - 1) + [Turned(p, t)]
  }

  /** q is a quarter-turn image (possibly the identity) of a point of s. */
  ghost predicate InOrbit(s: seq<Point>, q: Point)
  {
    q in s || Rot90(q) in s || Rot90(Rot90(q)) in s || Rot90(Rot90(Rot90(q))) in s
  }

  ghost predicate ClosedUnderRot90(s: seq<Point>)
  {
    forall q :: q in s ==> Rot90(q) in s
  }

  /** q is one of the three proper turns of p exactly when p is a proper turn of q. */
  lemma TurnsOfPoint(p: Point, q: Point)
    ensures q in Turns(p, 3) <==> Rot90(q) == p || Rot90(Rot90(q)) == p || Rot90(Rot90(Rot90(q))) == p
  {
    assert Turned(p, 1) == Rot90(p);
    assert Turned(p, 2) == Rot90(Rot90(p));
    assert Turned(p, 3) == Rot90(Rot90(Rot90(p)));
    assert Turns(p, 1) == [] + [Turned(p, 1)] == [Rot90(p)];
    assert Turns(p, 2) == Turns(p, 1) + [Turned(p, 2)];
    assert Turns(p, 3) == Turns(p, 2) + [Turned(p, 3)];
  }

  /** An orbit membership test is the same for q and its quarter turn. */
  lemma OrbitOfTurn(s: seq<Point>, q: Point)
    ensures InOrbit(s, q) ==> InOrbit(s, Rot90(q))
  {
    assert Rot90(Rot90(Rot90(Rot90(q)))) == q;
  }

  /** The inner loop of the closure pass: appends the turns of p that the list lacks. */
  method AddTurns(r0: seq<Point>, p: Point) returns (r: seq<Point>)
    ensures |r0| <= |r| && r[..|r0|] == r0
    ensures forall q :: q in r <==> q in r0 || q in Turns(p, 3)
    ensures Distinct(r0) ==> Distinct(r)
  {
    r := r0;
    var rotate90 := p;
    for rotateIndex := 0 to 3
      invariant rotate90 == Turned(p, rotateIndex)
      invariant |r0| <= |r| && r[..|r0|] == r0
      invariant forall q :: q in r <==> q in r0 || q in Turns(p, rotateIndex)
      invariant Distinct(r0) ==> Distinct(r)
    {
      var temp := rotate90.x;
      rotate90 := rotate90.(x := rotate90.y);
      rotate90 := rotate90.(y := -temp);
      if rotate90 !in r {
        r := r + [rotate90];
      }
    }
  }

  /**
   * The closure pass on one cell: for each of the cell's original points,
   * last to first, appends each of its three quarter turns the list does
   * not hold yet.
   */
  method Rotate90Closure(list: seq<Point>) returns (r: seq<Point>)
    ensures |list| <= |r| && r[..|list|] == list
    ensures forall q :: q in r <==> InOrbit(list, q)
    ensures ClosedUnderRot90(r)
    ensures Distinct(list) ==> Distinct(r)
  {
    r := list;
    var listIndex := |list| - 1;
    while listIndex >= 0
      invariant -1 <= listIndex < |list|
      invariant |list| <= |r| && r[..|list|] == list
      invariant forall q :: q in r <==> (q in list || Rot90(q) in list[listIndex + 1..]
        || Rot90(Rot90(q)) in list[listIndex + 1..] || Rot90(Rot90(Rot90(q))) in list[listIndex + 1..])
      invariant Distinct(list) ==> Distinct(r)
    {
      assert r[listIndex] == list[listIndex];
      ghost var before := r;
      r := AddTurns(r, r[listIndex]);
      assert r[..|list|] == before[..|list|];
      forall q | true
        ensures q in r <==> (q in list || Rot90(q) in list[listIndex..]
          || Rot90(Rot90(q)) in list[listIndex..] || Rot90(Rot90(Rot90(q))) in list[listIndex..])
      {
        TurnsOfPoint(list[listIndex], q);
        assert list[listIndex..] == [list[listIndex]] + list[listIndex + 1..];
      }
      listIndex := listIndex - 1;
    }
    assert list[0..] == list;
    forall q | q in r
      ensures Rot90(q) in r
    {
      OrbitOfTurn(list, q);
    }
  }

  // ---------------------------------------------------------------------
  // Building one table

  /** Whether MapAngle samples p: both coordinates lie in [-2R, 2R]. */
  predicate Sampled(p: Point)
  {
    -2 * MaxFlakeRadius <= p.x <= 2 * MaxFlakeRadius && -2 * MaxFlakeRadius <= p.y <= 2 * MaxFlakeRadius
  }

  /**
   * p is listed in the cell its back-rotated position `back` hashes to,
   * whenever that cell is a first-quadrant cell of m.
   */
  ghost predicate ListedAt(m: array2<seq<Point>>, p: Point, back: Point)
    reads m
  {
    var row, col := back.y + MaxFlakeRadius, back.x + MaxFlakeRadius;
    row < m.Length0 && col < m.Length1 && FirstQuadrant(row, col) ==> p in m[row, col]
  }

  /**
   * MapAngle: samples every point of the square [-2R, 2R]^2 (R the largest
   * flake radius) through `turn`, fills each still-empty first-quadrant
   * cell from its diagonal neighbours, then closes every first-quadrant
   * cell under quarter turns. Neither pass drops a listed point.
   */
  method MapAngle(turn: Point -> Point, m: array2<seq<Point>>)
    requires forall i, j :: 0 <= i < m.Length0 && 0 <= j < m.Length1 ==> m[i, j] == []
    modifies m
    ensures WellFormed(m)
    ensures forall i, j :: 0 <= i < m.Length0 && 0 <= j < m.Length1 && FirstQuadrant(i, j) ==>
      ClosedUnderRot90(m[i, j])
    ensures forall p :: Sampled(p) ==> ListedAt(m, p, turn(p))
  {
    var xMin, xMax := -MaxFlakeRadius * 2, MaxFlakeRadius * 2;
    var x := xMin;
    while x <= xMax
      invariant xMin <= x <= xMax + 1
      invariant WellFormed(m)
      invariant forall p :: Sampled(p) && p.x < x ==> ListedAt(m, p, turn(p))
    {
      MapColumn(x, turn, m);
      x := x + 1;
    }
    label Mapped:
    FillPass(m);
    label Filled:
    ClosePass(m);
    forall p | Sampled(p)
      ensures ListedAt(m, p, turn(p))
    {
      var row, col := turn(p).y + MaxFlakeRadius, turn(p).x + MaxFlakeRadius;
      if row < m.Length0 && col < m.Length1 && FirstQuadrant(row, col) {
        assert p in old@Mapped(m[row, col]);
        assert old@Filled(m[row, col]) == old@Mapped(m[row, col]);
        assert ClosureOf(old@Filled(m[row, col]), m[row, col]);
      }
    }
  }

  /** The inner loop of MapAngle's sampling: the points (x, y) for every sampled y. */
  method MapColumn(x: int, turn: Point -> Point, m: array2<seq<Point>>)
    requires WellFormed(m)
    modifies m
    ensures WellFormed(m)
    ensures forall p :: Sampled(p) && p.x == x ==> ListedAt(m, p, turn(p))
    ensures forall p :: old(ListedAt(m, p, turn(p))) ==> ListedAt(m, p, turn(p))
  {
    var y := -MaxFlakeRadius * 2;
    while y <= MaxFlakeRadius * 2
      invariant y <= MaxFlakeRadius * 2 + 1
      invariant WellFormed(m)
      invariant forall p :: Sampled(p) && p.x == x && p.y < y ==> ListedAt(m, p, turn(p))
      invariant forall p :: old(ListedAt(m, p, turn(p))) ==> ListedAt(m, p, turn(p))
    {
      MapRotatedPoint(Point(x, y), turn, m);
      y := y + 1;
    }
  }

  /** The fill pass of MapAngle over the first-quadrant cells, row by row. */
  method FillPass(m: array2<seq<Point>>)
    requires WellFormed(m)
    modifies m
    ensures WellFormed(m)
    ensures forall i, j :: 0 <= i < m.Length0 && 0 <= j < m.Length1 && !FirstQuadrant(i, j) ==> m[i, j] == old(m[i, j])
    ensures forall i, j :: 0 <= i < m.Length0 && 0 <= j < m.Length1 && old(m[i, j]) != [] ==> m[i, j] == old(m[i, j])
  {
    var i := MaxFlakeRadius;
    while i < m.Length0
      invariant WellFormed(m)
      invariant forall a, b :: 0 <= a < m.Length0 && 0 <= b < m.Length1 && !FirstQuadrant(a, b) ==> m[a, b] == old(m[a, b])
      invariant forall a, b :: 0 <= a < m.Length0 && 0 <= b < m.Length1 && old(m[a, b]) != [] ==> m[a, b] == old(m[a, b])
    {
      var j := MaxFlakeRadius;
      while j < m.Length1
        invariant MaxFlakeRadius <= i
        invariant WellFormed(m)
        invariant forall a, b :: 0 <= a < m.Length0 && 0 <= b < m.Length1 && !FirstQuadrant(a, b) ==> m[a, b] == old(m[a, b])
        invariant forall a, b :: 0 <= a < m.Length0 && 0 <= b < m.Length1 && old(m[a, b]) != [] ==> m[a, b] == old(m[a, b])
      {
        if m[i, j] == [] {
          GetAverageOfSurroundingPoints(i, j, m);
        }
        j := j + 1;
      }
      i := i + 1;
    }
  }

  /**
   * What the closure pass makes of a cell that listed c0: the same points
   * first, followed by exactly the quarter turns of those points that were
   * missing.
   */
  ghost predicate ClosureOf(c0: seq<Point>, c: seq<Point>)
  {
    && |c0| <= |c| && c[..|c0|] == c0
    && (forall q :: q in c <==> InOrbit(c0, q))
  }

  /** Closes cell (i, j) under quarter turns; no other cell changes. */
  method CloseCell(m: array2<seq<Point>>, i: int, j: int)
    requires 0 <= i < m.Length0 && 0 <= j < m.Length1 && FirstQuadrant(i, j)
    requires WellFormed(m)
    modifies m
    ensures WellFormed(m)
    ensures ClosureOf(old(m[i, j]), m[i, j]) && ClosedUnderRot90(m[i, j])
    ensures forall a, b :: 0 <= a < m.Length0 && 0 <= b < m.Length1 && (a != i || b != j) ==> m[a, b] == old(m[a, b])
  {
    var closed := Rotate90Closure(m[i, j]);
    m[i, j] := closed;
  }

  /**
   * The closure pass of MapAngle over the first-quadrant cells, row by row:
   * each of them keeps its points and gains exactly their missing quarter
   * turns; every other cell is unchanged.
   */
  method ClosePass(m: array2<seq<Point>>)
    requires WellFormed(m)
    modifies m
    ensures WellFormed(m)
    ensures forall a, b :: 0 <= a < m.Length0 && 0 <= b < m.Length1 ==>
      if FirstQuadrant(a, b) then ClosureOf(old(m[a, b]), m[a, b]) && ClosedUnderRot90(m[a, b])
      else m[a, b] == old(m[a, b])
  {
    var i := MaxFlakeRadius;
    while i < m.Length0
      invariant MaxFlakeRadius <= i
      invariant WellFormed(m)
      invariant forall a, b :: 0 <= a < m.Length0 && 0 <= b < m.Length1 ==>
        if FirstQuadrant(a, b) && a < i then ClosureOf(old(m[a, b]), m[a, b]) && ClosedUnderRot90(m[a, b])
        else m[a, b] == old(m[a, b])
    {
      var j := MaxFlakeRadius;
      while j < m.Length1
        invariant MaxFlakeRadius <= j
        invariant WellFormed(m)
        invariant forall a, b :: 0 <= a < m.Length0 && 0 <= b < m.Length1 ==>
          if FirstQuadrant(a, b) && (a < i || (a == i && b < j)) then ClosureOf(old(m[a, b]), m[a, b]) && ClosedUnderRot90(m[a, b])
          else m[a, b] == old(m[a, b])
      {
        CloseCell(m, i, j);
        j := j + 1;
      }
      i := i + 1;
    }
  }

  /**
   * InitRotationHash: one Dim x Dim table per whole angle of a quarter turn,
   * table `angle` built by MapAngle with the rotation by -angle degrees,
   * `turnBack(angle, p)`.
   */
  method InitRotationHash(turnBack: (int, Point) -> Point) returns (tables: seq<array2<seq<Point>>>)
    ensures |tables| == Angles
    ensures forall a :: 0 <= a < |tables| ==> fresh(tables[a])
    ensures forall a :: 0 <= a < |tables| ==> tables[a].Length0 == Dim && tables[a].Length1 == Dim && WellFormed(tables[a])
    ensures forall a, i, j :: 0 <= a < |tables| && 0 <= i < Dim && 0 <= j < Dim && FirstQuadrant(i, j) ==>
      ClosedUnderRot90(tables[a][i, j])
    ensures forall a, p :: 0 <= a < |tables| && Sampled(p) ==> ListedAt(tables[a], p, turnBack(a, p))
  {
    tables := [];
    for angle := 0 to Angles
      invariant |tables| == angle
      invariant forall a :: 0 <= a < angle ==> fresh(tables[a])
      invariant forall a :: 0 <= a < angle ==> tables[a].Length0 == Dim && tables[a].Length1 == Dim && WellFormed(tables[a])
      invariant forall a, i, j :: 0 <= a < angle && 0 <= i < Dim && 0 <= j < Dim && FirstQuadrant(i, j) ==>
        ClosedUnderRot90(tables[a][i, j])
      invariant forall a, p :: 0 <= a < angle && Sampled(p) ==> ListedAt(tables[a], p, turnBack(a, p))
    {
      var rotationMatrix := new seq<Point>[Dim, Dim]((_, _) => []);
      MapAngle(p => turnBack(angle, p), rotationMatrix);
      tables := tables + [rotationMatrix];
    }
  }
}
