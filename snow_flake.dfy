/**
 * One snowflake: its position and velocity, its pattern of pixels, the
 * trail of its last positions, and how it is drawn onto the 1-byte flake
 * buffer through a rotation table.  Positions and velocities are reals
 * (the source uses floats); the wind field's reading is a function
 * parameter; the rotation angle that selects the table is left out, so
 * the table is a parameter of Draw.
 */
module Flakes {
  import opened Common
  import opened Shapes
  import opened PixelOps
  import opened Pixels
  import Rotation
  import Chance

  datatype Vec = Vec(x: real, y: real)

  /** The slowest a flake may fall, in pixels per update. */
  const MinimumFallingSpeed: real := 0.2

  /** Largest distance of a drawn pixel from the flake's centre: ceil(sqrt(2) * 20 + 1). */
  const MaxFlakePixelDistance: int := 30

  const White := Color(255, 255, 255, 255)

  /** C#'s (int) cast of a float: truncation toward zero. */
  function Trunc(r: real): (t: int)
    ensures 0.0 <= r ==> t as real <= r < t as real + 1.0
    ensures r < 0.0 ==> t as real - 1.0 < r <= t as real
  {
    if r >= 0.0 then r.Floor else -((-r).Floor)
  }

  /** The grid point a trail records for a position. */
  function TrailPoint(p: Vec): Point
  {
    Point(Trunc(p.x), Trunc(p.y))
  }

  /** (acc + v * inertia) / (inertia + 1): the new velocity component after a gust. */
  function Blend(acc: real, v: real, inertia: int): (r: real)
    requires inertia >= 0
    ensures acc <= v ==> acc <= r <= v
    ensures v <= acc ==> v <= r <= acc
  {
    var w := inertia as real;
    assert acc * w <= v * w <==> acc <= v || w == 0.0;
    (acc + v * w) / (w + 1.0)
  }

  /**
   * The velocity after one gust: each component is the inertia-weighted
   * blend of the wind's reading and the old velocity, and the vertical one
   * is raised to the minimum falling speed.
   */
  function Accelerated(m: Vec, acc: Vec, inertia: int): (r: Vec)
    requires inertia >= 0
    ensures r.y >= MinimumFallingSpeed
    ensures acc.x <= m.x ==> acc.x <= r.x <= m.x
    ensures m.x <= acc.x ==> m.x <= r.x <= acc.x
    ensures acc.y <= m.y && MinimumFallingSpeed <= acc.y ==> acc.y <= r.y <= m.y
    ensures m.y <= acc.y && MinimumFallingSpeed <= m.y ==> m.y <= r.y <= acc.y
  {
    var y := Blend(acc.y, m.y, inertia);
    Vec(Blend(acc.x, m.x, inertia), if y < MinimumFallingSpeed then MinimumFallingSpeed else y)
  }

  /** Whether a position lies in a field of the given size. */
  predicate Inside(p: Vec, width: int, height: int)
  {
    0.0 <= p.x < width as real && 0.0 <= p.y < height as real
  }

  /** The trail after recording each of ps in turn: append the newest, drop the oldest. */
  function Recorded(t: seq<Point>, ps: seq<Point>): seq<Point>
    decreases |ps|
  {
    if ps == [] then t else Recorded((t + [ps[0]])[1..], ps[1..])
  }

  /** The trail always holds the last |t| recorded positions. */
  lemma {:induction false} RecordedIsSuffix(t: seq<Point>, ps: seq<Point>)
    ensures Recorded(t, ps) == (t + ps)[|ps|..]
    decreases |ps|
  {
    if ps != [] {
      var t' := (t + [ps[0]])[1..];
      RecordedIsSuffix(t', ps[1..]);
      assert t' + ps[1..] == (t + ps)[1..];
      assert (t + ps)[1..][|ps[1..]|..] == (t + ps)[|ps|..];
    }
  }

  // ---------------------------------------------------------------------
  // What Draw writes

  /** The byte a 1-byte image stores (x, y) at, unchecked: x + y * (width + padding). */
  function Offset8(x: int, y: int, width: nat): int
  {
    x + y * width + Padding(width, 1) * y
  }

  predicate InImage(q: Point, width: nat, height: nat)
  {
    0 <= q.x < width && 0 <= q.y < height
  }

  /** Some point of pts lies inside the image. */
  predicate AnyInImage(pts: seq<Point>, width: nat, height: nat)
  {
    exists q :: q in pts && InImage(q, width, height)
  }

  /** One more point is inside the image when it or an earlier one is. */
  lemma AnyInImageSnoc(pts: seq<Point>, p: Point, width: nat, height: nat)
    ensures AnyInImage(pts + [p], width, height) == (AnyInImage(pts, width, height) || InImage(p, width, height))
  {
    if InImage(p, width, height) {
      assert p in pts + [p];
    }
    if q :| q in pts && InImage(q, width, height) {
      assert q in pts + [p];
    }
  }

  /** Moves every point of s by (dx, dy). */
  function Moved(s: seq<Point>, dx: int, dy: int): (r: seq<Point>)
    ensures |r| == |s|
    ensures forall i :: 0 <= i < |s| ==> r[i] == Point(s[i].x + dx, s[i].y + dy)
  {
    seq(|s|, i requires 0 <= i < |s| => Point(s[i].x + dx, s[i].y + dy))
  }

  /** Byte j holds a point of pts; a checked draw plots only points inside the image. */
  ghost predicate Explained(j: int, pts: seq<Point>, width: nat, height: nat, checked: bool)
  {
    exists q :: q in pts && Offset8(q.x, q.y, width) == j && (checked ==> InImage(q, width, height))
  }

  /** Every byte that changed became 255 and belongs to a plotted point. */
  ghost predicate WhitenedBy(before: seq<byte>, after: seq<byte>, pts: seq<Point>, width: nat, height: nat, checked: bool)
  {
    |after| == |before|
    && forall j :: 0 <= j < |after| && after[j] != before[j] ==> after[j] == 255 && Explained(j, pts, width, height, checked)
  }

  /** Every point of pts inside the image is lit. */
  ghost predicate ShowsAll(after: seq<byte>, pts: seq<Point>, width: nat, height: nat)
  {
    forall q :: q in pts && InImage(q, width, height) ==>
      0 <= Offset8(q.x, q.y, width) < |after| && after[Offset8(q.x, q.y, width)] == 255
  }

  /** Every point of pts lands inside the buffer. */
  ghost predicate AllStored(pts: seq<Point>, width: nat, length: nat)
  {
    forall q :: q in pts ==> 0 <= Offset8(q.x, q.y, width) < length
  }

  lemma InImageStored(q: Point, width: nat, height: nat)
    requires InImage(q, width, height)
    ensures 0 <= Offset8(q.x, q.y, width) < StorageLength(width, height, 1)
  {
    PaddedIndexInRange(q.x, q.y, width, height, 1);
  }

  /** A later whitening composes with an earlier one. */
  lemma WhitenedTrans(before: seq<byte>, mid: seq<byte>, after: seq<byte>, a: seq<Point>, b: seq<Point>,
                      width: nat, height: nat, checked: bool, checkedB: bool)
    requires WhitenedBy(before, mid, a, width, height, checked)
    requires WhitenedBy(mid, after, b, width, height, checkedB)
    requires checked ==> checkedB
    ensures WhitenedBy(before, after, a + b, width, height, checked)
  {
    forall j | 0 <= j < |after| && after[j] != before[j]
      ensures after[j] == 255 && Explained(j, a + b, width, height, checked)
    {
      if after[j] != mid[j] {
        var w :| w in b && Offset8(w.x, w.y, width) == j && (checkedB ==> InImage(w, width, height));
        assert w in a + b;
      } else {
        var w :| w in a && Offset8(w.x, w.y, width) == j && (checked ==> InImage(w, width, height));
        assert w in a + b;
      }
    }
  }

  /** An account of the changed bytes stays true for a larger set of points. */
  lemma WhitenedWider(before: seq<byte>, after: seq<byte>, a: seq<Point>, b: seq<Point>, width: nat, height: nat, checked: bool)
    requires WhitenedBy(before, after, a, width, height, checked)
    requires forall q :: q in a ==> q in b
    ensures WhitenedBy(before, after, b, width, height, checked)
  {
    forall j | 0 <= j < |after| && after[j] != before[j]
      ensures Explained(j, b, width, height, checked)
    {
      var w :| w in a && Offset8(w.x, w.y, width) == j && (checked ==> InImage(w, width, height));
    }
  }

  /** Whitening never darkens a lit point. */
  lemma ShowsKept(mid: seq<byte>, after: seq<byte>, a: seq<Point>, b: seq<Point>, width: nat, height: nat, checked: bool)
    requires ShowsAll(mid, a, width, height)
    requires WhitenedBy(mid, after, b, width, height, checked)
    ensures ShowsAll(after, a, width, height)
  {
  }

  /** Lighting one byte whitens it on account of the point stored there. */
  lemma PlotOne(before: seq<byte>, q: Point, width: nat, height: nat, checked: bool)
    requires 0 <= Offset8(q.x, q.y, width) < |before|
    requires checked ==> InImage(q, width, height)
    ensures WhitenedBy(before, before[Offset8(q.x, q.y, width) := 255], [q], width, height, checked)
    ensures ShowsAll(before[Offset8(q.x, q.y, width) := 255], [q], width, height)
  {
    assert q in [q];
  }

  /** The rotation-table cell a pattern pixel reads exists and has been filled. */
  ghost predicate CellReady(table: array2<seq<Point>>, fp: Point)
  {
    && 0 <= fp.y + MaxFlakeRadius < table.Length0 && 0 <= fp.x + MaxFlakeRadius < table.Length1
    && Rotation.FirstQuadrant(fp.y + MaxFlakeRadius, fp.x + MaxFlakeRadius)
  }

  /** The screen points of a pattern drawn through a table at (px, py), pixel by pixel. */
  ghost function Drawn(ps: seq<Point>, table: array2<seq<Point>>, px: int, py: int): seq<Point>
    reads table
    decreases |ps|
  {
    if ps == [] then []
    else
      var fp := ps[|ps| - 1];
      Drawn(ps[..|ps| - 1], table, px, py)
        + Moved(Rotation.Cell(table, fp.y + MaxFlakeRadius, fp.x + MaxFlakeRadius), px, py)
  }

  lemma {:induction false} DrawnPrefix(ps: seq<Point>, k: nat, table: array2<seq<Point>>, px: int, py: int)
    requires k <= |ps|
    ensures forall q :: q in Drawn(ps[..k], table, px, py) ==> q in Drawn(ps, table, px, py)
    decreases |ps|
  {
    if k < |ps| {
      assert ps[..|ps| - 1][..k] == ps[..k];
      DrawnPrefix(ps[..|ps| - 1], k, table, px, py);
    } else {
      assert ps[..k] == ps;
    }
  }

  /** Every cell of ps is ready and, when unchecked, every drawn point lands in the buffer. */
  ghost predicate PatternDrawable(ps: seq<Point>, table: array2<seq<Point>>, px: int, py: int, fast: bool, width: nat, length: nat)
    reads table
  {
    (forall k :: 0 <= k < |ps| ==> CellReady(table, ps[k]))
    && (fast ==> AllStored(Drawn(ps, table, px, py), width, length))
  }

  /** A draw that stops at pixel k has whitened only pattern points and the pattern was not drawable. */
  lemma DrawStopped(ps: seq<Point>, k: nat, table: array2<seq<Point>>, px: int, py: int, fast: bool,
                    before: seq<byte>, after: seq<byte>, width: nat, height: nat, length: nat)
    requires k < |ps|
    requires WhitenedBy(before, after, Drawn(ps[..k + 1], table, px, py), width, height, !fast)
    requires !CellReady(table, ps[k]) || (fast && !AllStored(Drawn(ps[..k + 1], table, px, py), width, length))
    ensures WhitenedBy(before, after, Drawn(ps, table, px, py), width, height, !fast)
    ensures !PatternDrawable(ps, table, px, py, fast, width, length)
  {
    DrawnPrefix(ps, k + 1, table, px, py);
    WhitenedWider(before, after, Drawn(ps[..k + 1], table, px, py), Drawn(ps, table, px, py), width, height, !fast);
  }

  /**
   * One point of the inner foreach of Draw: the fast path stores 255
   * unchecked, the slow path only inside the image.  `done` are the points
   * plotted before, since the buffer was `before`.
   */
  method PlotPoint(g: Image, q: Point, fast: bool, ghost before: seq<byte>, ghost done: seq<Point>) returns (o: Outcome)
    requires g.Valid() && g.bpp == 1
    requires WhitenedBy(before, g.pixels[..], done, g.width, g.height, !fast)
    requires ShowsAll(g.pixels[..], done, g.width, g.height)
    modifies g.pixels
    ensures o == Pass <==> !fast || 0 <= Offset8(q.x, q.y, g.width) < g.pixels.Length
    ensures o.Fail? ==> o.error == IndexOutOfRange && g.pixels[..] == old(g.pixels[..])
    ensures WhitenedBy(before, g.pixels[..], done + [q], g.width, g.height, !fast)
    ensures o == Pass ==> ShowsAll(g.pixels[..], done + [q], g.width, g.height)
  {
    ghost var mid := g.pixels[..];
    if fast || (q.x >= 0 && q.x < g.width && q.y >= 0 && q.y < g.height) {
      if !fast {
        InImageStored(q, g.width, g.height);
      }
      o := g.SetPixel8Bit(q.x, q.y, 255);
      if o.Fail? {
        WhitenedWider(before, g.pixels[..], done, done + [q], g.width, g.height, !fast);
        return;
      }
      PlotOne(mid, q, g.width, g.height, !fast);
      WhitenedTrans(before, mid, g.pixels[..], done, [q], g.width, g.height, !fast, !fast);
      ShowsKept(mid, g.pixels[..], done, [q], g.width, g.height, !fast);
    } else {
      o := Pass;
      WhitenedWider(before, g.pixels[..], done, done + [q], g.width, g.height, !fast);
    }
  }

  /**
   * The inner foreach of Draw: plots every point of a table cell moved by
   * (dx, dy).  The fast path plots without a bounds check (an index past
   * the buffer throws); the slow path skips points outside the image.
   */
  method PlotCell(g: Image, cell: seq<Point>, dx: int, dy: int, fast: bool) returns (o: Outcome)
    requires g.Valid() && g.bpp == 1
    modifies g.pixels
    ensures WhitenedBy(old(g.pixels[..]), g.pixels[..], Moved(cell, dx, dy), g.width, g.height, !fast)
    ensures o == Pass ==> ShowsAll(g.pixels[..], Moved(cell, dx, dy), g.width, g.height)
    ensures o == Pass <==> !fast || AllStored(Moved(cell, dx, dy), g.width, g.pixels.Length)
    ensures o.Fail? ==> o.error == IndexOutOfRange
  {
    ghost var before := g.pixels[..];
    ghost var pts := Moved(cell, dx, dy);
    for t := 0 to |cell|
      invariant WhitenedBy(before, g.pixels[..], pts[..t], g.width, g.height, !fast)
      invariant ShowsAll(g.pixels[..], pts[..t], g.width, g.height)
      invariant fast ==> AllStored(pts[..t], g.width, g.pixels.Length)
    {
      var drawPoint := Point(cell[t].x + dx, cell[t].y + dy);
      assert pts[..t + 1] == pts[..t] + [drawPoint];
      o := PlotPoint(g, drawPoint, fast, before, pts[..t]);
      if o.Fail? {
        assert !AllStored(pts, g.width, g.pixels.Length) by {
          assert drawPoint in pts;
        }
        WhitenedWider(before, g.pixels[..], pts[..t], pts, g.width, g.height, !fast);
        return;
      }
    }
    assert pts[..|cell|] == pts;
    o := Pass;
  }

  class SnowFlake {
    var position: Vec
    var movement: Vec
    /** How strongly the flake resists the wind: the weight of its old velocity. */
    var inertia: int
    const size: int
    /** Which of the drift's wind fields blows this flake. */
    const windField: nat
    /** The pattern: first-quadrant pixels looked up in the rotation table. */
    var pixels: seq<Point>
    var trail: seq<Point>
    const trailLength: nat
    var isActive: bool
    /** The slot of the drift's array the flake was created for. */
    ghost const slot: nat

    ghost predicate Valid()
      reads this
    {
      |trail| == trailLength && inertia >= 0
    }

    /**
     * A flake of size flakeSize at `position`, its pattern picked from the
     * patterns of that size, its trail trailLength copies of its position.
     */
    constructor (position: Vec, velocity: Vec, inertia: int, windField: nat, flakeSize: int,
                 patterns: seq<seq<Point>>, trailLength: nat, ghost slot: nat)
      requires |patterns| > 0 && inertia >= 0
      ensures Valid()
      ensures this.position == position && movement == velocity && this.inertia == inertia
      ensures size == flakeSize && this.windField == windField && this.trailLength == trailLength && this.slot == slot
      ensures pixels in patterns
      ensures trail == seq(trailLength, _ => TrailPoint(position))
      ensures !isActive
    {
      size := flakeSize;
      this.slot := slot;
      this.windField := windField;
      this.trailLength := trailLength;
      this.position := position;
      movement := velocity;
      this.inertia := inertia;
      var pick := Chance.Int(0, |patterns| - 1);
      pixels := patterns[pick];
      isActive := false;
      var t: seq<Point> := [];
      for i := 0 to trailLength
        invariant t == seq(i, _ => TrailPoint(position))
      {
        t := t + [TrailPoint(position)];
      }
      trail := t;
    }

    /** Restarts the flake at `position` with a new velocity, inertia and pattern; the trail is kept. */
    method ReInit(position: Vec, velocity: Vec, inertia: int, patterns: seq<seq<Point>>)
      requires Valid() && |patterns| > 0 && inertia >= 0
      modifies this
      ensures Valid()
      ensures this.position == position && movement == velocity && this.inertia == inertia
      ensures pixels in patterns
      ensures trail == old(trail) && isActive == old(isActive)
    {
      this.position := position;
      movement := velocity;
      this.inertia := inertia;
      var pick := Chance.Int(0, |patterns| - 1);
      pixels := patterns[pick];
    }

    /**
     * Lets the wind act: each velocity component moves toward the wind
     * field's reading at the flake's position, weighted by the inertia, and
     * the vertical one is raised to the minimum falling speed.
     */
    method Accelerate(wind: (nat, Vec) -> Vec)
      requires Valid()
      modifies this
      ensures Valid()
      ensures var acc := wind(windField, position);
        && movement.x == Blend(acc.x, old(movement.x), inertia)
        && movement.y == (if Blend(acc.y, old(movement.y), inertia) < MinimumFallingSpeed
                          then MinimumFallingSpeed else Blend(acc.y, old(movement.y), inertia))
      ensures movement.y >= MinimumFallingSpeed
      ensures movement == Accelerated(old(movement), wind(windField, position), inertia)
      ensures position == old(position) && inertia == old(inertia) && pixels == old(pixels)
      ensures trail == old(trail) && isActive == old(isActive)
    {
      var acc := wind(windField, position);
      var w := inertia as real;
      movement := movement.(x := (acc.x + movement.x * w) / (w + 1.0));
      movement := movement.(y := (acc.y + movement.y * w) / (w + 1.0));
      if movement.y < MinimumFallingSpeed {
        movement := movement.(y := MinimumFallingSpeed);
      }
    }

    /** Moves the flake by its velocity and records the new position in the trail, dropping the oldest. */
    method Move()
      requires Valid()
      modifies this
      ensures Valid()
      ensures position == Vec(old(position).x + movement.x, old(position).y + movement.y)
      ensures trail == Recorded(old(trail), [TrailPoint(position)])
      ensures movement == old(movement) && inertia == old(inertia) && pixels == old(pixels)
      ensures isActive == old(isActive)
    {
      position := Vec(position.x + movement.x, position.y + movement.y);
      trail := (trail + [TrailPoint(position)])[1..];
    }

    /** Whether the flake is in the field; the pixel it is drawn around then lies in the field too. */
    predicate InBounds(width: int, height: int)
      reads this
      ensures InBounds(width, height) ==>
        0 <= Trunc(position.x) < width && 0 <= Trunc(position.y) < height
    {
      Inside(position, width, height)
    }

    /**
     * Whether Draw takes its unchecked path: the flake's whole 60x60 box
     * around its pixel lies in the image, so the flake is in the image.
     */
    predicate FastPath(width: nat, height: nat)
      reads this
      ensures FastPath(width, height) ==> InBounds(width, height)
      ensures FastPath(width, height) ==>
        forall q :: InBox(q) ==> InImage(q, width, height)
    {
      var px, py := Trunc(position.x), Trunc(position.y);
      0 <= px - MaxFlakePixelDistance && px + MaxFlakePixelDistance <= width
      && 0 <= py - MaxFlakePixelDistance && py + MaxFlakePixelDistance <= height
    }

    /** Whether q lies in the flake's 60x60 box: at most 30 pixels left or above its pixel, under 30 right or below. */
    predicate InBox(q: Point)
      reads this
    {
      var px, py := Trunc(position.x), Trunc(position.y);
      px - MaxFlakePixelDistance <= q.x < px + MaxFlakePixelDistance
      && py - MaxFlakePixelDistance <= q.y < py + MaxFlakePixelDistance
    }

    /** The unchecked path is taken exactly when the whole box lies in the image. */
    lemma FastPathExactly(width: nat, height: nat)
      ensures FastPath(width, height) <==> forall q :: InBox(q) ==> InImage(q, width, height)
    {
      var px, py := Trunc(position.x), Trunc(position.y);
      if forall q :: InBox(q) ==> InImage(q, width, height) {
        assert InBox(Point(px - MaxFlakePixelDistance, py - MaxFlakePixelDistance));
        assert InBox(Point(px + MaxFlakePixelDistance - 1, py + MaxFlakePixelDistance - 1));
      }
    }

    /** The points the pattern is drawn at through `table`. */
    ghost function DrawnPoints(table: array2<seq<Point>>): seq<Point>
      reads this, table
    {
      Drawn(pixels, table, Trunc(position.x), Trunc(position.y))
    }

    /** Whether Draw completes: every cell exists and is filled, and an unchecked draw stays in the buffer. */
    ghost predicate Drawable(g: Image, table: array2<seq<Point>>)
      reads this, g, table
    {
      PatternDrawable(pixels, table, Trunc(position.x), Trunc(position.y), FastPath(g.width, g.height), g.width, g.pixels.Length)
    }

    /**
     * Draws the pattern through the rotation table, then the trail in white.
     * Draw only ever whitens bytes: every byte it changes belongs to a
     * drawn pattern point (inside the image unless the fast path is taken)
     * or to a trail point inside the image; on success every such point
     * inside the image is lit, and the image is flagged for refresh exactly
     * when some trail point lies inside it (the pattern is plotted without
     * setting the flag).
     */
    method Draw(g: Image, table: array2<seq<Point>>) returns (o: Outcome)
      requires Valid() && g.Valid() && g.bpp == 1
      modifies g, g.pixels
      ensures o == Pass <==> old(Drawable(g, table))
      ensures o.Fail? ==> o.error == IndexOutOfRange || o.error == NullReference
      ensures WhitenedBy(old(g.pixels[..]), g.pixels[..], old(DrawnPoints(table)) + trail,
                         g.width, g.height, !FastPath(g.width, g.height))
      ensures o == Pass ==> ShowsAll(g.pixels[..], old(DrawnPoints(table)), g.width, g.height)
      ensures o == Pass ==> ShowsAll(g.pixels[..], trail, g.width, g.height)
      ensures g.needsRefresh == (old(g.needsRefresh) || (o == Pass && AnyInImage(trail, g.width, g.height)))
    {
      ghost var before := g.pixels[..];
      ghost var drawn := DrawnPoints(table);
      o := DrawPattern(g, table);
      if o.Fail? {
        WhitenedWider(before, g.pixels[..], drawn, drawn + trail, g.width, g.height, !FastPath(g.width, g.height));
        return;
      }
      ghost var mid := g.pixels[..];
      DrawTrail(g);
      WhitenedTrans(before, mid, g.pixels[..], drawn, trail, g.width, g.height, !FastPath(g.width, g.height), true);
      ShowsKept(mid, g.pixels[..], drawn, trail, g.width, g.height, true);
    }

    /**
     * One pattern pixel of Draw: looks up its table cell (an index outside
     * the table throws, an unfilled cell is null) and plots the cell's points.
     */
    static method DrawPixel(g: Image, table: array2<seq<Point>>, fp: Point, px: int, py: int, fast: bool,
                            ghost before: seq<byte>, ghost done: seq<Point>) returns (o: Outcome)
      requires g.Valid() && g.bpp == 1
      requires WhitenedBy(before, g.pixels[..], done, g.width, g.height, !fast)
      requires ShowsAll(g.pixels[..], done, g.width, g.height)
      requires fast ==> AllStored(done, g.width, g.pixels.Length)
      modifies g.pixels
      ensures var pts := done + Moved(Rotation.Cell(table, fp.y + MaxFlakeRadius, fp.x + MaxFlakeRadius), px, py);
        && (o == Pass <==> CellReady(table, fp) && (fast ==> AllStored(pts, g.width, g.pixels.Length)))
        && (o.Fail? ==> o.error == IndexOutOfRange || o.error == NullReference)
        && WhitenedBy(before, g.pixels[..], pts, g.width, g.height, !fast)
        && (o == Pass ==> ShowsAll(g.pixels[..], pts, g.width, g.height))
        && (o == Pass && fast ==> AllStored(pts, g.width, g.pixels.Length))
    {
      var row, col := fp.y + MaxFlakeRadius, fp.x + MaxFlakeRadius;
      ghost var cellPts := Moved(Rotation.Cell(table, row, col), px, py);
      if !(0 <= row < table.Length0 && 0 <= col < table.Length1) || !Rotation.FirstQuadrant(row, col) {
        WhitenedWider(before, g.pixels[..], done, done + cellPts, g.width, g.height, !fast);
        return if !(0 <= row < table.Length0 && 0 <= col < table.Length1) then Fail(IndexOutOfRange) else Fail(NullReference);
      }
      var mappedPoints := table[row, col];
      ghost var mid := g.pixels[..];
      o := PlotCell(g, mappedPoints, px, py, fast);
      WhitenedTrans(before, mid, g.pixels[..], done, cellPts, g.width, g.height, !fast, !fast);
      if o.Pass? {
        ShowsKept(mid, g.pixels[..], done, cellPts, g.width, g.height, !fast);
      }
    }

    /** The pattern part of Draw. */
    method DrawPattern(g: Image, table: array2<seq<Point>>) returns (o: Outcome)
      requires Valid() && g.Valid() && g.bpp == 1
      modifies g.pixels
      ensures o == Pass <==> old(Drawable(g, table))
      ensures o.Fail? ==> o.error == IndexOutOfRange || o.error == NullReference
      ensures WhitenedBy(old(g.pixels[..]), g.pixels[..], old(DrawnPoints(table)), g.width, g.height, !FastPath(g.width, g.height))
      ensures o == Pass ==> ShowsAll(g.pixels[..], old(DrawnPoints(table)), g.width, g.height)
    {
      var px, py := Trunc(position.x), Trunc(position.y);
      o := DrawPoints(g, table, pixels, px, py, FastPath(g.width, g.height));
    }

    /** The inner foreach of Draw over the pattern points ps, anchored at (px, py). */
    static method DrawPoints(g: Image, table: array2<seq<Point>>, ps: seq<Point>, px: int, py: int, fast: bool)
      returns (o: Outcome)
      requires g.Valid() && g.bpp == 1
      modifies g.pixels
      ensures o == Pass <==> PatternDrawable(ps, table, px, py, fast, g.width, g.pixels.Length)
      ensures o.Fail? ==> o.error == IndexOutOfRange || o.error == NullReference
      ensures WhitenedBy(old(g.pixels[..]), g.pixels[..], Drawn(ps, table, px, py), g.width, g.height, !fast)
      ensures o == Pass ==> ShowsAll(g.pixels[..], Drawn(ps, table, px, py), g.width, g.height)
    {
      ghost var before := g.pixels[..];
      ghost var w, h, len := g.width, g.height, g.pixels.Length;
      for k := 0 to |ps|
        invariant forall i :: 0 <= i < k ==> CellReady(table, ps[i])
        invariant WhitenedBy(before, g.pixels[..], Drawn(ps[..k], table, px, py), w, h, !fast)
        invariant ShowsAll(g.pixels[..], Drawn(ps[..k], table, px, py), w, h)
        invariant fast ==> AllStored(Drawn(ps[..k], table, px, py), w, len)
      {
        ghost var done := Drawn(ps[..k], table, px, py);
        assert ps[..k + 1][..k] == ps[..k];
        assert Drawn(ps[..k + 1], table, px, py)
          == done + Moved(Rotation.Cell(table, ps[k].y + MaxFlakeRadius, ps[k].x + MaxFlakeRadius), px, py);
        o := DrawPixel(g, table, ps[k], px, py, fast, before, done);
        if o.Fail? {
          DrawStopped(ps, k, table, px, py, fast, before, g.pixels[..], w, h, len);
          return;
        }
      }
      assert ps[..|ps|] == ps;
      o := Pass;
    }

    /**
     * The trail part of Draw: every trail point inside the image is set to
     * white, through SetPixel, which flags the image for refresh.
     */
    method DrawTrail(g: Image)
      requires Valid() && g.Valid() && g.bpp == 1
      modifies g, g.pixels
      ensures WhitenedBy(old(g.pixels[..]), g.pixels[..], trail, g.width, g.height, true)
      ensures ShowsAll(g.pixels[..], trail, g.width, g.height)
      ensures g.needsRefresh == (old(g.needsRefresh) || AnyInImage(trail, g.width, g.height))
    {
      ghost var before, flagged := g.pixels[..], g.needsRefresh;
      for t := 0 to |trail|
        invariant WhitenedBy(before, g.pixels[..], trail[..t], g.width, g.height, true)
        invariant ShowsAll(g.pixels[..], trail[..t], g.width, g.height)
        invariant g.needsRefresh == (flagged || AnyInImage(trail[..t], g.width, g.height))
      {
        var p := trail[t];
        assert trail[..t + 1] == trail[..t] + [p];
        AnyInImageSnoc(trail[..t], p, g.width, g.height);
        if p.x >= 0 && p.x < g.width && p.y >= 0 && p.y < g.height {
          ghost var mid := g.pixels[..];
          var o := g.SetPixel(p.x, p.y, White);
          PlotOne(mid, p, g.width, g.height, true);
          WhitenedTrans(before, mid, g.pixels[..], trail[..t], [p], g.width, g.height, true, true);
          ShowsKept(mid, g.pixels[..], trail[..t], [p], g.width, g.height, true);
        } else {
          WhitenedWider(before, g.pixels[..], trail[..t], trail[..t + 1], g.width, g.height, true);
        }
      }
      assert trail[..|trail|] == trail;
    }
  }

  /** One of the flake sizes, drawn at random. */
  method GetRandomFlakeSize() returns (size: int)
    ensures size in FlakeSizes
  {
    var k := Chance.Int(0, |FlakeSizes| - 1);
    size := FlakeSizes[k];
  }
}
