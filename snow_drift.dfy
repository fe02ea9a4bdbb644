/**
 * The flake population of one drift: a fixed-capacity array of flakes of
 * which the first numFlakes have been created, each active or turned off,
 * with counters of the removals still pending, of the flakes turned off,
 * and the lowest index of a turned-off flake.  The updates the source runs
 * in parallel run here one flake after the other; the wind fields are a
 * function parameter of Update.
 */
module Drift {
  import opened Common
  import opened Shapes
  import opened PixelOps
  import opened Pixels
  import opened Flakes
  import Chance

  const MinInertia: int := 25
  const MaxInertia: int := 40
  /** Number of wind fields of a drift; flake k is blown by field k % WindVariations. */
  const WindVariations: nat := 100
  /** The field is the screen enlarged by twice the largest flake size in each dimension. */
  const Border: nat := 2 * MaxFlakeRadius

  // ---------------------------------------------------------------------
  // The active flags

  /** Number of entries of s equal to b. */
  function Count(s: seq<bool>, b: bool): (n: nat)
    ensures n <= |s|
  {
    if s == [] then 0 else Count(s[..|s| - 1], b) + (if s[|s| - 1] == b then 1 else 0)
  }

  /** Every flag is counted once: as on or as off. */
  lemma {:induction false} CountBoth(s: seq<bool>)
    ensures Count(s, true) + Count(s, false) == |s|
  {
    if s != [] {
      CountBoth(s[..|s| - 1]);
    }
  }

  /** Setting one flag to b counts one more b exactly when the flag was not b already. */
  lemma {:induction false} CountSet(s: seq<bool>, i: nat, b: bool)
    requires i < |s|
    ensures Count(s[i := b], b) == Count(s, b) + (if s[i] == b then 0 else 1)
    ensures Count(s[i := b], !b) == Count(s, !b) - (if s[i] == b then 0 else 1)
  {
    var t := s[i := b];
    if i == |s| - 1 {
      assert t[..|t| - 1] == s[..|s| - 1];
    } else {
      assert t[..|t| - 1] == s[..|s| - 1][i := b];
      CountSet(s[..|s| - 1], i, b);
    }
  }

  lemma CountAppend(s: seq<bool>, b: bool, c: bool)
    ensures Count(s + [b], c) == Count(s, c) + (if b == c then 1 else 0)
  {
    assert (s + [b])[..|s|] == s;
  }

  /** Index of the first flag that is off, |s| when all are on. */
  function FirstOff(s: seq<bool>): (k: nat)
    ensures k <= |s|
    ensures k < |s| ==> !s[k]
  {
    if s == [] then 0 else if !s[0] then 0 else 1 + FirstOff(s[1..])
  }

  /** Every flag before FirstOff is on. */
  lemma {:induction false} FirstOffBefore(s: seq<bool>)
    ensures forall j :: 0 <= j < FirstOff(s) ==> s[j]
  {
    if s != [] && s[0] {
      FirstOffBefore(s[1..]);
    }
  }

  /** FirstOff is the only index with its two properties. */
  lemma FirstOffUnique(s: seq<bool>, k: nat)
    requires k <= |s| && (k < |s| ==> !s[k])
    requires forall j :: 0 <= j < k ==> s[j]
    ensures FirstOff(s) == k
  {
    FirstOffBefore(s);
  }

  /** A flag is off somewhere exactly when FirstOff points inside. */
  lemma {:induction false} FirstOffCount(s: seq<bool>)
    ensures FirstOff(s) < |s| <==> Count(s, false) > 0
  {
    if s != [] {
      var u := s[..|s| - 1];
      FirstOffCount(u);
      FirstOffBefore(s);
      FirstOffBefore(u);
      if FirstOff(u) < |u| {
        FirstOffUnique(s, FirstOff(u));
      } else if s[|s| - 1] {
        FirstOffUnique(s, |s|);
      } else {
        FirstOffUnique(s, |s| - 1);
      }
    }
  }

  /** The stored form of FirstOff: int.MaxValue stands for "none off". */
  function Lowest(s: seq<bool>): int
  {
    if FirstOff(s) < |s| then FirstOff(s) else IntMax
  }

  /** Turning flag i off counts one more off flag and may lower the lowest one to i. */
  lemma TurnOffFlags(s: seq<bool>, i: nat)
    requires i < |s| <= IntMax && s[i]
    ensures Count(s[i := false], false) == Count(s, false) + 1
    ensures Lowest(s[i := false]) == if i < Lowest(s) then i else Lowest(s)
  {
    CountSet(s, i, false);
    FirstOffBefore(s);
    FirstOffUnique(s[i := false], if FirstOff(s) < i then FirstOff(s) else i);
  }

  /** Turning the lowest off flag on counts one fewer; every flag up to it is then on. */
  lemma TurnOnFlags(s: seq<bool>, r: nat)
    requires r == FirstOff(s) < |s|
    ensures Count(s[r := true], false) == Count(s, false) - 1
    ensures forall j :: 0 <= j < r ==> s[j]
  {
    CountSet(s, r, true);
    FirstOffBefore(s);
  }

  /** Appending an on flag to flags that are all on keeps them all on. */
  lemma AppendOnFlags(s: seq<bool>)
    requires FirstOff(s) == |s|
    ensures Count(s + [true], false) == Count(s, false)
    ensures FirstOff(s + [true]) == |s| + 1
  {
    CountAppend(s, true, false);
    FirstOffAppendOn(s);
  }

  lemma {:induction false} FirstOffAppendOn(s: seq<bool>)
    requires FirstOff(s) == |s|
    ensures FirstOff(s + [true]) == |s| + 1
  {
    if s != [] {
      assert (s + [true])[1..] == s[1..] + [true];
      FirstOffAppendOn(s[1..]);
    }
  }

  // ---------------------------------------------------------------------
  // The spawn position

  /**
   * The edge point drawn as d from [0, w + h): the top edge for d <= w
   * (clamped to the last column), otherwise row d - w of the upwind side.
   */
  function EdgePoint(d: int, w: int, h: int, windX: int): (p: Point)
    requires 0 <= d < w + h && w > 0 && h > 0
    ensures 0 <= p.x < w && 0 <= p.y < h
    ensures p.y == 0 || p.x == (if windX > 0 then 0 else w - 1)
  {
    var y := d - w;
    if y > 0 then Point(if windX > 0 then 0 else w - 1, y)
    else Point(if d >= w then w - 1 else d, 0)
  }

  /** Every point of the top edge and of the upwind side is drawn by some d. */
  lemma EdgePointCovers(w: int, h: int, windX: int)
    requires w > 0 && h > 0
    ensures forall x :: 0 <= x < w ==> EdgePoint(x, w, h, windX) == Point(x, 0)
    ensures forall d :: w < d < w + h ==> EdgePoint(d, w, h, windX) == Point(if windX > 0 then 0 else w - 1, d - w)
  {
  }

  function ToVec(p: Point): Vec
  {
    Vec(p.x as real, p.y as real)
  }

  /** What UpdateFlake and AddFlakes may change about a flake besides its flag. */
  datatype FlakeState = FlakeState(position: Vec, movement: Vec, inertia: int, pixels: seq<Point>, trail: seq<Point>)

  ghost function StateOf(f: SnowFlake): FlakeState
    reads f
  {
    FlakeState(f.position, f.movement, f.inertia, f.pixels, f.trail)
  }

  /** The array holds the created flakes, each valid, of a known size, and active as `flags` says. */
  ghost predicate Linked(slots: array<SnowFlake?>, live: seq<SnowFlake>, flags: seq<bool>)
    reads slots, live
  {
    && |live| == |flags| <= slots.Length
    && (forall i {:trigger slots[i]} :: 0 <= i < |live| ==>
          && slots[i] == live[i] && live[i].isActive == flags[i]
          && live[i].Valid() && live[i].size in FlakeSizes)
  }

  /** Each flake was created for its own slot, so no flake is created twice. */
  ghost predicate AllDistinct(live: seq<SnowFlake>)
  {
    forall i :: 0 <= i < |live| ==> live[i].slot == i
  }

  /**
   * Blowing a flake in state s gives state t: the velocity is the wind's
   * blend with the old one, the flake moves by the new velocity and
   * records the new position in its trail, and nothing else changes.
   */
  ghost predicate Blown(s: FlakeState, t: FlakeState, field: nat, wind: (nat, Vec) -> Vec)
  {
    && s.inertia >= 0
    && t.movement == Accelerated(s.movement, wind(field, s.position), s.inertia)
    && t.position == Vec(s.position.x + t.movement.x, s.position.y + t.movement.y)
    && t.inertia == s.inertia && t.pixels == s.pixels
    && t.trail == Recorded(s.trail, [TrailPoint(t.position)])
  }

  /**
   * The removals left pending after an update that saw k active flakes
   * outside the field: each of them uses one while any is pending.
   */
  function Consumed(pending: int, k: nat): (r: int)
    ensures pending <= 0 ==> r == pending
    ensures pending > 0 ==> 0 <= r <= pending && (r > 0 ==> r + k == pending) && (r == 0 ==> pending <= k)
  {
    if pending <= 0 then pending else if pending > k then pending - k else 0
  }

  /** One more flake outside the field uses one more pending removal, if one is left. */
  lemma ConsumedStep(pending: int, k: nat)
    ensures Consumed(pending, k + 1) == (var c := Consumed(pending, k); if c > 0 then c - 1 else c)
  {
  }

  /** The states of the flakes of fs, in order. */
  ghost function StatesOf(fs: seq<SnowFlake>): (r: seq<FlakeState>)
    reads set f | f in fs
    ensures |r| == |fs| && forall j :: 0 <= j < |fs| ==> r[j] == StateOf(fs[j])
  {
    if fs == [] then [] else StatesOf(fs[..|fs| - 1]) + [StateOf(fs[|fs| - 1])]
  }

  /** The first |states| flakes of fs are in the given states. */
  ghost predicate InStates(fs: seq<SnowFlake>, states: seq<FlakeState>)
    reads set f | f in fs
  {
    |states| <= |fs| && forall j :: 0 <= j < |states| ==> StateOf(fs[j]) == states[j]
  }

  /**
   * The number of flakes among the first k, in states s and active as
   * `on` says, that are active and outside a field of the given size.
   */
  function Outside(s: seq<FlakeState>, on: seq<bool>, k: nat, width: int, height: int): (n: nat)
    requires k <= |s| && k <= |on|
    ensures n <= k
  {
    if k == 0 then 0
    else Outside(s, on, k - 1, width, height) + (if on[k - 1] && !Inside(s[k - 1].position, width, height) then 1 else 0)
  }

  /** The flake's trail is `before` with its current position recorded. */
  ghost predicate TrailAdvanced(before: seq<Point>, f: SnowFlake)
    reads f
  {
    f.trail == Recorded(before, [TrailPoint(f.position)])
  }

  class SnowDrift {
    /** The enlarged field. */
    const width: nat
    const height: nat
    /** The 1-byte buffer the flakes are drawn into. */
    const flakeBuffer: Image
    /** The drift's general wind direction. */
    const windX: int
    const windY: int
    /** The flake patterns of each size. */
    const patterns: map<int, seq<seq<Point>>>
    const trailLength: nat
    const snowflakes: array<SnowFlake?>
    var numFlakes: nat
    var toRemove: int
    var turnedOff: int
    var lowest: int
    /** The created flakes and their active flags. */
    ghost var live: seq<SnowFlake>
    ghost var flags: seq<bool>

    /** The counters agree with the flags. */
    ghost predicate Counted()
      reads this
    {
      && |flags| == numFlakes <= snowflakes.Length <= IntMax
      && turnedOff == Count(flags, false)
      && lowest == Lowest(flags)
      && toRemove <= numFlakes
    }

    ghost predicate Valid()
      reads this, snowflakes, live
    {
      && Counted()
      && |live| == numFlakes && Linked(snowflakes, live, flags)
      && AllDistinct(live)
      && width > 0 && height > 0
      && flakeBuffer.Valid() && flakeBuffer.width == width && flakeBuffer.height == height
      && (forall s :: s in FlakeSizes ==> s in patterns && |patterns[s]| > 0)
    }

    /** A spawn point of the field: one of the edge points the drift draws from. */
    ghost predicate OnSpawnEdge(v: Vec)
    {
      width > 0 && height > 0 && exists d :: 0 <= d < width + height && v == ToVec(EdgePoint(d, width, height, windX))
    }

    /**
     * One update of an active flake of the given size and wind field, from
     * state s to state t: a flake inside the field is blown; one outside
     * is first re-spawned at rest at a spawn point with an inertia in
     * range and a pattern of its size, keeping its trail, and then blown.
     */
    ghost predicate Stepped(s: FlakeState, t: FlakeState, size: int, field: nat, wind: (nat, Vec) -> Vec)
    {
      if Inside(s.position, width, height) then
        Blown(s, t, field, wind)
      else
        var r := FlakeState(Vec(t.position.x - t.movement.x, t.position.y - t.movement.y), Vec(0.0, 0.0),
                            t.inertia, t.pixels, s.trail);
        && OnSpawnEdge(r.position)
        && MinInertia <= r.inertia <= MaxInertia
        && size in patterns && r.pixels in patterns[size]
        && Blown(r, t, field, wind)
    }

    /**
     * A drift over a screen of the given size: the field is enlarged by
     * Border in each dimension, the flake buffer is a 1-byte image of the
     * field, the wind direction is drawn, and one flake is added.
     */
    constructor (screenWidth: nat, screenHeight: nat, capacity: nat, trailLength: nat,
                 patterns: map<int, seq<seq<Point>>>)
      requires capacity <= IntMax
      requires forall s :: s in FlakeSizes ==> s in patterns && |patterns[s]| > 0
      ensures Valid()
      ensures width == screenWidth + Border && height == screenHeight + Border
      ensures fresh(flakeBuffer) && flakeBuffer.bpp == 1
      ensures fresh(snowflakes) && snowflakes.Length == capacity
      ensures -5 <= windX <= 5 && 1 <= windY <= 4
      ensures numFlakes == (if capacity > 0 then 1 else 0) && flags == seq(numFlakes, _ => true)
      ensures toRemove == 0 && turnedOff == 0 && lowest == IntMax
    {
      width := screenWidth + Border;
      height := screenHeight + Border;
      this.trailLength := trailLength;
      this.patterns := patterns;
      var buffer := new Image(screenWidth + Border, screenHeight + Border, Format8bppIndexed);
      buffer.SetAlpha(255);
      flakeBuffer := buffer;
      var wx := Chance.Int(-5, 5);
      var wy := Chance.Int(1, 4);
      windX, windY := wx, wy;
      snowflakes := new SnowFlake?[capacity];
      numFlakes, toRemove, turnedOff, lowest := 0, 0, 0, IntMax;
      live, flags := [], [];
      new;
      AddFlakes();
    }

    /** The number of active flakes. */
    function SnowFlakeCount(): (n: int)
      requires Counted()
      reads this
      ensures n == Count(flags, true)
    {
      CountBoth(flags);
      numFlakes - turnedOff
    }

    /** Asks for n more flakes to be turned off, never more than there are flakes. */
    method RemoveFlakes(n: int)
      requires Valid()
      modifies this
      ensures Valid()
      ensures toRemove == if old(toRemove) + n > numFlakes then numFlakes else old(toRemove) + n
      ensures numFlakes == old(numFlakes) && turnedOff == old(turnedOff) && lowest == old(lowest)
      ensures live == old(live) && flags == old(flags)
    {
      toRemove := toRemove + n;
      if toRemove > numFlakes {
        toRemove := numFlakes;
      }
    }

    /** A spawn position on the edge the wind blows from. */
    method NewFlakePosition() returns (v: Vec)
      requires width > 0 && height > 0
      ensures OnSpawnEdge(v)
    {
      var d := Chance.Int(0, width + height - 1);
      v := ToVec(EdgePoint(d, width, height, windX));
    }

    /**
     * Adds one flake, in this order of preference: cancel a pending
     * removal; turn the lowest turned-off flake back on; create a new
     * active flake if the array has room.
     */
    method AddFlakes()
      requires Valid()
      modifies this, snowflakes, live
      ensures Valid()
      ensures old(toRemove) > 0 ==>
        toRemove == old(toRemove) - 1 && flags == old(flags) && live == old(live)
      ensures old(toRemove) <= 0 && old(turnedOff) > 0 ==>
        && 0 <= old(lowest) < old(numFlakes) && !old(flags)[old(lowest)]
        && flags == old(flags)[old(lowest) := true] && toRemove == old(toRemove) && live == old(live)
      ensures old(toRemove) <= 0 && old(turnedOff) <= 0 && old(numFlakes) < snowflakes.Length ==>
        && flags == old(flags) + [true] && toRemove == old(toRemove)
        && live[..old(numFlakes)] == old(live) && fresh(live[old(numFlakes)])
        && live[old(numFlakes)].windField == old(numFlakes) % WindVariations
        && MinInertia <= live[old(numFlakes)].inertia <= MaxInertia
        && live[old(numFlakes)].movement == Vec(0.0, 0.0)
        && OnSpawnEdge(live[old(numFlakes)].position)
        && live[old(numFlakes)].size in FlakeSizes && live[old(numFlakes)].pixels in patterns[live[old(numFlakes)].size]
      ensures old(toRemove) <= 0 && old(turnedOff) <= 0 && old(numFlakes) == snowflakes.Length ==>
        flags == old(flags) && toRemove == old(toRemove) && live == old(live)
      ensures forall i :: 0 <= i < old(numFlakes) ==> StateOf(live[i]) == old(StateOf(live[i]))
      ensures forall i :: 0 <= i < old(numFlakes) && old(flags[i]) ==> flags[i]
      ensures SnowFlakeCount() == old(SnowFlakeCount())
        + (if old(toRemove) <= 0 && (old(turnedOff) > 0 || old(numFlakes) < snowflakes.Length) then 1 else 0)
    {
      CountBoth(flags);
      if toRemove > 0 {
        toRemove := toRemove - 1;
      } else if turnedOff > 0 {
        FirstOffCount(flags);
        Reactivate();
      } else if numFlakes < snowflakes.Length {
        FirstOffCount(flags);
        Append();
      }
      CountBoth(flags);
    }

    /** The middle branch of AddFlakes: turn the lowest turned-off flake on and look for the next one. */
    method Reactivate()
      requires Valid() && turnedOff > 0 && 0 <= lowest < numFlakes
      modifies this, live
      ensures Valid()
      ensures !old(flags)[old(lowest)] && flags == old(flags)[old(lowest) := true]
      ensures numFlakes == old(numFlakes) && toRemove == old(toRemove) && turnedOff == old(turnedOff) - 1
      ensures live == old(live)
      ensures forall i :: 0 <= i < numFlakes ==> StateOf(live[i]) == old(StateOf(live[i]))
    {
      var r := lowest;
      TurnOnFlags(flags, r);
      SetFlag(r, true);
      turnedOff := turnedOff - 1;
      var k := ScanOn(r);
      FirstOffUnique(flags, k);
      lowest := if k >= numFlakes then IntMax else k;
    }

    /** The scan of AddFlakes: the first turned-off flake from index `from` on, numFlakes if none. */
    method ScanOn(from: nat) returns (k: nat)
      requires |live| == numFlakes && Linked(snowflakes, live, flags) && from <= numFlakes
      ensures from <= k <= numFlakes
      ensures forall j :: from <= j < k ==> flags[j]
      ensures k < numFlakes ==> !flags[k]
    {
      k := from;
      while k < numFlakes && snowflakes[k].isActive
        invariant from <= k <= numFlakes
        invariant forall j :: from <= j < k ==> flags[j]
        invariant k < numFlakes ==> snowflakes[k] == live[k]
        decreases numFlakes - k
      {
        k := k + 1;
        if k < numFlakes {
          assert snowflakes[k] == live[k];
        }
      }
    }

    /** The last branch of AddFlakes: a new active flake at a spawn point, at rest. */
    method Append()
      requires Valid() && turnedOff == 0 && numFlakes < snowflakes.Length
      requires FirstOff(flags) == numFlakes
      modifies this, snowflakes
      ensures Valid()
      ensures numFlakes == old(numFlakes) + 1 && flags == old(flags) + [true]
      ensures toRemove == old(toRemove) && turnedOff == old(turnedOff)
      ensures live[..old(numFlakes)] == old(live) && fresh(live[old(numFlakes)])
      ensures live[old(numFlakes)].windField == old(numFlakes) % WindVariations
      ensures MinInertia <= live[old(numFlakes)].inertia <= MaxInertia
      ensures live[old(numFlakes)].movement == Vec(0.0, 0.0)
      ensures OnSpawnEdge(live[old(numFlakes)].position)
      ensures live[old(numFlakes)].size in FlakeSizes && live[old(numFlakes)].pixels in patterns[live[old(numFlakes)].size]
      ensures forall i :: 0 <= i < old(numFlakes) ==> StateOf(live[i]) == old(StateOf(live[i]))
    {
      var f := NewFlake();
      Push(f);
    }

    /** Stores the active flake f after the created ones. */
    method Push(f: SnowFlake)
      requires Valid() && turnedOff == 0 && numFlakes < snowflakes.Length
      requires FirstOff(flags) == numFlakes
      requires f.slot == numFlakes && f.isActive && f.Valid() && f.size in FlakeSizes
      modifies this, snowflakes
      ensures Valid()
      ensures numFlakes == old(numFlakes) + 1 && flags == old(flags) + [true] && live == old(live) + [f]
      ensures toRemove == old(toRemove) && turnedOff == old(turnedOff)
    {
      AppendOnFlags(flags);
      snowflakes[numFlakes] := f;
      live, flags := live + [f], flags + [true];
      numFlakes := numFlakes + 1;
      forall j | 0 <= j < numFlakes
        ensures snowflakes[j] == live[j] && live[j].isActive == flags[j] && live[j].Valid() && live[j].size in FlakeSizes
        ensures live[j].slot == j
      {
        if j < old(numFlakes) {
          assert live[j] == old(live[j]);
          assert old(snowflakes[j] == live[j] && live[j].isActive == flags[j] && live[j].Valid() && live[j].size in FlakeSizes);
        }
      }
    }

    /** A new active flake at a spawn point, at rest, of a random size with that size's patterns. */
    method NewFlake() returns (f: SnowFlake)
      requires Valid()
      ensures fresh(f) && f.isActive && f.Valid() && f.size in FlakeSizes
      ensures f.windField == numFlakes % WindVariations && f.trailLength == trailLength && f.slot == numFlakes
      ensures MinInertia <= f.inertia <= MaxInertia && f.movement == Vec(0.0, 0.0)
      ensures OnSpawnEdge(f.position) && f.pixels in patterns[f.size]
    {
      var p := NewFlakePosition();
      var inertia := Chance.Int(MinInertia, MaxInertia);
      var size := GetRandomFlakeSize();
      f := new SnowFlake(p, Vec(0.0, 0.0), inertia, numFlakes % WindVariations, size, patterns[size], trailLength, numFlakes);
      f.isActive := true;
    }

    /**
     * One flake's update: an active flake that has left the field is
     * re-spawned at rest with a new inertia and pattern, and turned off if
     * a removal is pending; then every active flake is blown by the wind
     * and moved.  A turned-off flake is left as it is.
     */
    method UpdateFlake(i: nat, wind: (nat, Vec) -> Vec)
      requires Valid() && i < numFlakes
      modifies this, live[i]
      ensures Valid()
      ensures numFlakes == old(numFlakes) && live == old(live)
      ensures var off := old(flags[i]) && !Inside(old(live[i].position), width, height) && old(toRemove) > 0;
        && flags == (if off then old(flags)[i := false] else old(flags))
        && toRemove == old(toRemove) - (if off then 1 else 0)
        && turnedOff == old(turnedOff) + (if off then 1 else 0)
      ensures Updated(old(StateOf(live[i])), old(flags[i]), StateOf(live[i]), flags[i], live[i].size, live[i].windField, wind)
      ensures forall j :: 0 <= j < numFlakes && j != i ==> StateOf(live[j]) == old(StateOf(live[j]))
    {
      var f := snowflakes[i];
      if f.isActive {
        Advance(i, wind);
      }
    }

    /** The active flake i takes its step: re-spawned (and maybe turned off) if outside the field, then blown. */
    method Advance(i: nat, wind: (nat, Vec) -> Vec)
      requires Valid() && i < numFlakes && flags[i]
      modifies this, live[i]
      ensures Valid()
      ensures numFlakes == old(numFlakes) && live == old(live)
      ensures var off := !Inside(old(live[i].position), width, height) && old(toRemove) > 0;
        && flags == (if off then old(flags)[i := false] else old(flags))
        && toRemove == old(toRemove) - (if off then 1 else 0)
        && turnedOff == old(turnedOff) + (if off then 1 else 0)
      ensures Updated(old(StateOf(live[i])), true, StateOf(live[i]), flags[i], live[i].size, live[i].windField, wind)
    {
      var f := snowflakes[i];
      if !f.InBounds(width, height) {
        Recycle(i);
      }
      ghost var r := StateOf(f);
      Blow(i, wind);
      assert r.position == Vec(f.position.x - f.movement.x, f.position.y - f.movement.y);
    }

    /** The active flake i, outside the field, is re-spawned, and turned off if a removal is pending. */
    method Recycle(i: nat)
      requires Valid() && i < numFlakes && flags[i]
      modifies this, live[i]
      ensures Valid()
      ensures numFlakes == old(numFlakes) && live == old(live)
      ensures var off := old(toRemove) > 0;
        && flags == (if off then old(flags)[i := false] else old(flags))
        && toRemove == old(toRemove) - (if off then 1 else 0)
        && turnedOff == old(turnedOff) + (if off then 1 else 0)
      ensures OnSpawnEdge(live[i].position) && live[i].movement == Vec(0.0, 0.0)
      ensures MinInertia <= live[i].inertia <= MaxInertia
      ensures live[i].size in patterns && live[i].pixels in patterns[live[i].size]
      ensures live[i].trail == old(live[i].trail)
    {
      Respawn(i);
      if toRemove > 0 {
        TurnOff(i);
      }
    }

    /** Flake i is blown by the wind and moved, recording its new position in its trail. */
    method Blow(i: nat, wind: (nat, Vec) -> Vec)
      requires Valid() && i < numFlakes
      modifies live[i]
      ensures Valid()
      ensures TrailAdvanced(old(live[i].trail), live[i]) && live[i].movement.y >= MinimumFallingSpeed
      ensures live[i].inertia == old(live[i].inertia) && live[i].isActive == old(live[i].isActive)
      ensures Blown(old(StateOf(live[i])), StateOf(live[i]), live[i].windField, wind)
    {
      var f := snowflakes[i];
      f.Accelerate(wind);
      f.Move();
    }

    /** Re-spawns flake i at rest with a new inertia and the patterns of its size. */
    method Respawn(i: nat)
      requires Valid() && i < numFlakes
      modifies live[i]
      ensures Valid()
      ensures live[i].isActive == old(live[i].isActive)
      ensures OnSpawnEdge(live[i].position) && live[i].movement == Vec(0.0, 0.0)
      ensures MinInertia <= live[i].inertia <= MaxInertia
      ensures live[i].size in patterns && live[i].pixels in patterns[live[i].size]
      ensures live[i].trail == old(live[i].trail)
    {
      var p := NewFlakePosition();
      var inertia := Chance.Int(MinInertia, MaxInertia);
      var f := snowflakes[i];
      f.ReInit(p, Vec(0.0, 0.0), inertia, patterns[f.size]);
      forall j | 0 <= j < numFlakes
        ensures snowflakes[j] == live[j] && live[j].isActive == flags[j] && live[j].Valid()
      {
        assert old(snowflakes[j] == live[j] && live[j].isActive == flags[j] && live[j].Valid());
      }
    }

    /** Turns the active flake i off for a pending removal. */
    method TurnOff(i: nat)
      requires Valid() && i < numFlakes && flags[i] && toRemove > 0
      modifies this, live[i]
      ensures Valid()
      ensures flags == old(flags)[i := false] && live == old(live) && numFlakes == old(numFlakes)
      ensures toRemove == old(toRemove) - 1 && turnedOff == old(turnedOff) + 1
      ensures StateOf(live[i]) == old(StateOf(live[i]))
    {
      TurnOffFlags(flags, i);
      SetFlag(i, false);
      toRemove := toRemove - 1;
      turnedOff := turnedOff + 1;
      if i < lowest {
        lowest := i;
      }
    }

    /** Turns flake i on or off, keeping the array and the flags in step. */
    method SetFlag(i: nat, b: bool)
      requires |live| == numFlakes && Linked(snowflakes, live, flags) && AllDistinct(live) && i < numFlakes
      modifies this`flags, live[i]
      ensures Linked(snowflakes, live, flags) && flags == old(flags)[i := b]
      ensures StateOf(live[i]) == old(StateOf(live[i]))
    {
      assert snowflakes[i] == live[i];
      snowflakes[i].isActive := b;
      flags := flags[i := b];
    }

    /**
     * What Update does to the state of a flake that was in state s and
     * active iff `on`: an active flake takes one step, a turned-off one is
     * left as it was.
     */
    ghost predicate Advanced(s: FlakeState, on: bool, t: FlakeState, size: int, field: nat, wind: (nat, Vec) -> Vec)
    {
      if on then Stepped(s, t, size, field, wind) else t == s
    }

    /**
     * What Update leaves of a flake that was in state s and active iff
     * `on`, now in state t and active iff `now`: it has advanced, an active
     * flake is turned off only if it was outside the field, and a
     * turned-off one stays off.
     */
    ghost predicate Updated(s: FlakeState, on: bool, t: FlakeState, now: bool, size: int, field: nat,
                            wind: (nat, Vec) -> Vec)
    {
      && Advanced(s, on, t, size, field, wind)
      && (if on then !now ==> !Inside(s.position, width, height) else !now)
    }

    /**
     * Update's progress after the first i flakes, which started in states
     * `before` with flags `on` while `pending` removals were pending: those
     * flakes are updated, the others are untouched, and the removals left
     * pending are what the flakes outside the field among the first i left.
     */
    ghost predicate UpdatedUpTo(i: nat, before: seq<FlakeState>, on: seq<bool>, pending: int, wind: (nat, Vec) -> Vec)
      reads this, live
    {
      && i <= numFlakes == |live| == |flags| == |before| == |on|
      && toRemove == Consumed(pending, Outside(before, on, i, width, height))
      && (forall j :: i <= j < numFlakes ==> flags[j] == on[j] && StateOf(live[j]) == before[j])
      && (forall j {:trigger Updated(before[j], on[j], StateOf(live[j]), flags[j], live[j].size, live[j].windField, wind)} ::
            0 <= j < i ==> Updated(before[j], on[j], StateOf(live[j]), flags[j], live[j].size, live[j].windField, wind))
    }

    /**
     * Every created flake has made one update, from the states `before`
     * with the activity flags `on`, in the given wind (see Updated).
     */
    ghost predicate AllUpdated(before: seq<FlakeState>, on: seq<bool>, wind: (nat, Vec) -> Vec)
      reads this`live, this`flags, live
    {
      && |before| == |on| == |live| == |flags|
      && forall j {:trigger Updated(before[j], on[j], StateOf(live[j]), flags[j], live[j].size, live[j].windField, wind)} ::
           0 <= j < |live| ==> Updated(before[j], on[j], StateOf(live[j]), flags[j], live[j].size, live[j].windField, wind)
    }

    /**
     * Each of the flakes fs that started in states `before` with the
     * activity flags `on` has advanced to its state in `after` (see
     * Advanced), whatever its flag is now.
     */
    ghost predicate AllAdvanced(before: seq<FlakeState>, on: seq<bool>, after: seq<FlakeState>, fs: seq<SnowFlake>,
                                wind: (nat, Vec) -> Vec)
    {
      && |before| == |on| <= |after| && |before| <= |fs|
      && forall j {:trigger Advanced(before[j], on[j], after[j], fs[j].size, fs[j].windField, wind)} ::
           0 <= j < |before| ==> Advanced(before[j], on[j], after[j], fs[j].size, fs[j].windField, wind)
    }

    /** An update that has reached every flake has advanced every flake. */
    lemma UpdatedAdvanced(before: seq<FlakeState>, on: seq<bool>, wind: (nat, Vec) -> Vec)
      requires AllUpdated(before, on, wind)
      ensures AllAdvanced(before, on, StatesOf(live), live, wind)
    {
      forall j | 0 <= j < |before|
        ensures Advanced(before[j], on[j], StatesOf(live)[j], live[j].size, live[j].windField, wind)
      {
        assert Updated(before[j], on[j], StateOf(live[j]), flags[j], live[j].size, live[j].windField, wind);
      }
    }

    /**
     * n calls of AddFlakes: each one cancels a pending removal or adds an
     * active flake, until the drift holds as many active flakes as it can.
     * The flakes already created keep their states.
     */
    method AddBatch(n: nat)
      requires Valid()
      modifies this, snowflakes, live
      ensures Valid()
      ensures SnowFlakeCount() <= old(SnowFlakeCount()) + n
      ensures || SnowFlakeCount() - toRemove == old(SnowFlakeCount() - toRemove) + n
              || (SnowFlakeCount() == snowflakes.Length && toRemove <= 0)
      ensures old(numFlakes) <= numFlakes && live[..old(numFlakes)] == old(live)
      ensures InStates(live, old(StatesOf(live)))
    {
      for i := 0 to n
        invariant Valid()
        invariant |old(live)| <= |live| && live[..|old(live)|] == old(live)
        invariant forall j :: |old(live)| <= j < |live| ==> fresh(live[j])
        invariant forall j :: 0 <= j < |old(live)| ==> StateOf(live[j]) == old(StateOf(live[j]))
        invariant SnowFlakeCount() <= old(SnowFlakeCount()) + i
        invariant || SnowFlakeCount() - toRemove == old(SnowFlakeCount() - toRemove) + i
                  || (SnowFlakeCount() == snowflakes.Length && toRemove <= 0)
      {
        AddFlakes();
      }
    }

    /** One round of Update's loop: flake i is updated. */
    method UpdateNext(i: nat, wind: (nat, Vec) -> Vec, ghost before: seq<FlakeState>, ghost on: seq<bool>, ghost pending: int)
      requires Valid() && i < numFlakes && UpdatedUpTo(i, before, on, pending, wind)
      modifies this, live[i]
      ensures Valid() && UpdatedUpTo(i + 1, before, on, pending, wind)
      ensures numFlakes == old(numFlakes) && live == old(live) && toRemove + turnedOff == old(toRemove + turnedOff)
    {
      ConsumedStep(pending, Outside(before, on, i, width, height));
      UpdateFlake(i, wind);
      forall j | 0 <= j < i
        ensures Updated(before[j], on[j], StateOf(live[j]), flags[j], live[j].size, live[j].windField, wind)
      {
        assert old(Updated(before[j], on[j], StateOf(live[j]), flags[j], live[j].size, live[j].windField, wind));
      }
    }

    /**
     * Updates every created flake in turn.  Every active flake takes one
     * step; pending removals are used, one per active flake found outside
     * the field, until none is left; each one used turns that flake off, no
     * flake is turned back on, and a flake still inside the field stays on.
     */
    method Update(wind: (nat, Vec) -> Vec)
      requires Valid()
      modifies this, live
      ensures Valid()
      ensures numFlakes == old(numFlakes) && live == old(live)
      ensures toRemove <= old(toRemove) && toRemove + turnedOff == old(toRemove + turnedOff)
      ensures toRemove == old(Consumed(toRemove, Outside(StatesOf(live), flags, numFlakes, width, height)))
      ensures SnowFlakeCount() - toRemove == old(SnowFlakeCount() - toRemove)
      ensures AllUpdated(old(StatesOf(live)), old(flags), wind)
    {
      ghost var before := StatesOf(live);
      ghost var on := flags;
      ghost var pending := toRemove;
      for i := 0 to numFlakes
        invariant Valid() && UpdatedUpTo(i, before, on, pending, wind)
        invariant numFlakes == old(numFlakes) && live == old(live) && toRemove + turnedOff == old(toRemove + turnedOff)
      {
        UpdateNext(i, wind, before, on, pending);
      }
    }
  }
}
