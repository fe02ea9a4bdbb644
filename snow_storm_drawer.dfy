/**
 * The population controller of the screensaver: one tick of a three-phase
 * state machine.  While it snows, the drift is updated and flakes are added
 * while the last cycle stayed within the time budget, or removals are
 * requested once the budget has been missed too often in a row; after the
 * snowing time the flakes are removed in timed batches; once the drift is
 * empty and the restart delay has passed, a new drift starts snowing.
 * The stopwatch readings and the timing sample are inputs of the tick, and
 * the restart of the drift's stopwatch is reported as a result.
 */
module Drawer {
  import opened Common
  import opened Flakes
  import opened Drift

  /** How long it snows before the drift winds down, in milliseconds. */
  const SnowingTime: int := 90 * 1000
  /** The cycle length the controller aims for, in milliseconds. */
  const PerformanceTime: int := 45
  /** Flakes added per fast cycle once the drift is full enough. */
  const MaxFlakesRate: int := 20
  /** Flakes removed per batch near the end of the wind-down (scaled by the count). */
  const FlakesToRemove: int := 15
  /** Flakes removed per batch while the drift is still large. */
  const FlakeGroupRemoval: int := 10
  /** Milliseconds between two removal batches. */
  const FlakeRemovalTime: int := 500
  /** Below this count the add and remove rates scale with the count. */
  const FlakeReductionLimit: int := 200
  /** Milliseconds the screen stays empty before it snows again. */
  const RestartTime: int := 10 * 1000
  /** Slow cycles in a row tolerated before flakes are removed. */
  const UnderSpeedLimit: int := 10

  /** Flakes added in a cycle that met the budget, given the current count. */
  function AddRate(count: nat): (n: int)
    ensures 1 <= n <= MaxFlakesRate
    ensures count >= FlakeReductionLimit ==> n == MaxFlakesRate
    ensures count < FlakeReductionLimit ==> n <= 1 + count / 10
  {
    if count < FlakeReductionLimit then
      var scaled := (MaxFlakesRate * count) / FlakeReductionLimit;
      if scaled < 1 then 1 else scaled
    else
      MaxFlakesRate
  }

  /** Flakes removed by one wind-down batch, given the current count. */
  function RemoveRate(count: nat): (n: int)
    ensures 1 <= n <= FlakesToRemove - 1
    ensures count >= FlakeReductionLimit ==> n == FlakeGroupRemoval
  {
    if count < FlakeReductionLimit then
      var scaled := (FlakesToRemove * count) / FlakeReductionLimit;
      if scaled < 1 then 1 else scaled
    else
      FlakeGroupRemoval
  }

  /** The snowing rate never falls as the drift fills up. */
  lemma AddRateMonotone(a: nat, b: nat)
    requires a <= b
    ensures AddRate(a) <= AddRate(b)
  {
    if b < FlakeReductionLimit {
      DivMonotone(MaxFlakesRate * a, MaxFlakesRate * b, FlakeReductionLimit);
    }
  }

  /** Below the reduction limit the removal batch shrinks with the count. */
  lemma RemoveRateMonotoneBelowLimit(a: nat, b: nat)
    requires a <= b < FlakeReductionLimit
    ensures RemoveRate(a) <= RemoveRate(b)
  {
    DivMonotone(FlakesToRemove * a, FlakesToRemove * b, FlakeReductionLimit);
  }

  lemma DivMonotone(x: nat, y: nat, d: int)
    requires x <= y && d > 0
    ensures x / d <= y / d
  {
    assert (x / d) * d <= x <= y < (y / d + 1) * d;
  }

  class SnowStormDrawer {
    /** The drift being animated. */
    var drift: SnowDrift
    /** The stopwatch ticks of one performance period. */
    var algorithmTicks: int
    /** Cycles in a row that missed the budget. */
    var underSpeedCounter: int
    /** Whether the drift is winding down. */
    var stopSnow: bool
    /** The settings every new drift is made from. */
    const screenWidth: nat
    const screenHeight: nat
    const capacity: nat
    const trailLength: nat
    const patterns: map<int, seq<seq<Point>>>

    ghost predicate Valid()
      reads this`drift, drift, drift.snowflakes, drift.live
    {
      && drift.Valid()
      && drift.width == screenWidth + Border && drift.height == screenHeight + Border
      && drift.snowflakes.Length == capacity <= IntMax
      && (forall s :: s in Shapes.FlakeSizes ==> s in patterns && |patterns[s]| > 0)
    }

    /**
     * The drawer of a screen of the given size: a new drift, snowing, with
     * the budget measured as a tenth of the ticks sampled over ten
     * performance periods.
     */
    constructor (screenWidth: nat, screenHeight: nat, capacity: nat, trailLength: nat,
                 patterns: map<int, seq<seq<Point>>>, sampleTicks: nat)
      requires capacity <= IntMax
      requires forall s :: s in Shapes.FlakeSizes ==> s in patterns && |patterns[s]| > 0
      ensures Valid() && fresh(drift)
      ensures !stopSnow && underSpeedCounter == 0 && algorithmTicks == sampleTicks / 10
      ensures drift.SnowFlakeCount() == (if capacity > 0 then 1 else 0)
    {
      this.screenWidth, this.screenHeight := screenWidth, screenHeight;
      this.capacity, this.trailLength, this.patterns := capacity, trailLength, patterns;
      drift := new SnowDrift(screenWidth, screenHeight, capacity, trailLength, patterns);
      algorithmTicks := sampleTicks / 10;
      underSpeedCounter := 0;
      stopSnow := false;
    }

    /**
     * One tick.  `cycleTicks` is the length of the last cycle (the
     * stopwatch reading SnowStormDrawer.Update keeps as calculationTime),
     * `driftMillis` the drift stopwatch's reading and `sampleTicks` a fresh
     * sample of ten performance periods (used only on restart); `wind` is
     * the drift's wind fields.  `added` is the number of AddFlakes calls
     * made, `removed` the number of removals requested, and `restartTimer`
     * whether the drift stopwatch restarts; while it snows, `counted` and
     * `settled` are the active flakes and the pending removals the drift
     * update left, and `mid` the states it left the old flakes in (see
     * Snowed).
     */
    method Update(cycleTicks: int, driftMillis: int, sampleTicks: nat, wind: (nat, Vec) -> Vec)
      returns (added: int, removed: int, restartTimer: bool, ghost counted: int, ghost settled: int,
                ghost mid: seq<FlakeState>)
      requires Valid()
      modifies this`algorithmTicks, this`drift, this`stopSnow, this`underSpeedCounter, drift, drift.snowflakes, drift.live
      ensures Valid() && Ticked(cycleTicks, driftMillis, sampleTicks, wind, added, removed, restartTimer, counted, settled, mid)
    {
      added, removed, restartTimer := 0, 0, false;
      counted, settled, mid := 0, 0, [];
      if !stopSnow {
        added, removed, counted, settled, mid := Snow(cycleTicks, driftMillis, wind);
      } else {
        removed, restartTimer := Settle(driftMillis, sampleTicks, wind);
      }
    }

    /**
     * What a tick did, from the old state to this one, in each of its
     * three phases.
     */
    twostate predicate Ticked(cycleTicks: int, driftMillis: int, sampleTicks: nat, new wind: (nat, Vec) -> Vec,
                              added: int, removed: int, restartTimer: bool, counted: int, settled: int,
                              new mid: seq<FlakeState>)
      requires old(Valid()) && Valid()
      reads this`drift, this`algorithmTicks, this`underSpeedCounter, this`stopSnow, drift, drift.snowflakes, drift.live
    {
      // Snowing: the drift is updated, then flakes are added or a removal is requested (see Snowed).
      && (!old(stopSnow) ==>
            && drift == old(drift) && !restartTimer
            && Snowed(cycleTicks, driftMillis, wind, added, removed, counted, settled, mid))
      // Winding down: a timed batch of removals, then the drift is updated (see WoundDown).
      && (old(stopSnow) && old(drift.SnowFlakeCount()) > 0 ==>
            && stopSnow && added == 0 && WoundDown(driftMillis, wind, removed, restartTimer)
            && underSpeedCounter == old(underSpeedCounter) && algorithmTicks == old(algorithmTicks))
      // Empty: after the restart delay a new drift starts snowing with a re-measured budget.
      && (old(stopSnow) && old(drift.SnowFlakeCount()) == 0 && driftMillis > RestartTime ==>
            && fresh(drift) && !stopSnow && restartTimer && added == 0 && removed == 0
            && algorithmTicks == (sampleTicks / 10 + old(algorithmTicks)) / 2
            && drift.SnowFlakeCount() == (if capacity > 0 then 1 else 0)
            && underSpeedCounter == old(underSpeedCounter))
      && (old(stopSnow) && old(drift.SnowFlakeCount()) == 0 && driftMillis <= RestartTime ==>
            && drift == old(drift) && stopSnow && !restartTimer && added == 0 && removed == 0
            && underSpeedCounter == old(underSpeedCounter) && algorithmTicks == old(algorithmTicks)
            && drift.numFlakes == old(drift.numFlakes) && drift.flags == old(drift.flags)
            && drift.toRemove == old(drift.toRemove))
    }

    /** The stopped phase of a tick: wind down while flakes are left, else wait to restart. */
    method Settle(driftMillis: int, sampleTicks: nat, wind: (nat, Vec) -> Vec) returns (removed: int, restartTimer: bool)
      requires Valid() && stopSnow
      modifies this`algorithmTicks, this`drift, this`stopSnow, drift, drift.snowflakes, drift.live
      ensures Valid()
      ensures old(drift.SnowFlakeCount()) > 0 ==>
        stopSnow && algorithmTicks == old(algorithmTicks) && WoundDown(driftMillis, wind, removed, restartTimer)
      ensures old(drift.SnowFlakeCount()) == 0 && driftMillis > RestartTime ==>
        && fresh(drift) && !stopSnow && restartTimer && removed == 0
        && algorithmTicks == (sampleTicks / 10 + old(algorithmTicks)) / 2
        && drift.SnowFlakeCount() == (if capacity > 0 then 1 else 0)
      ensures old(drift.SnowFlakeCount()) == 0 && driftMillis <= RestartTime ==>
        && drift == old(drift) && stopSnow && !restartTimer && removed == 0
        && algorithmTicks == old(algorithmTicks)
        && drift.numFlakes == old(drift.numFlakes) && drift.flags == old(drift.flags)
        && drift.toRemove == old(drift.toRemove)
    {
      removed, restartTimer := 0, false;
      if drift.SnowFlakeCount() > 0 {
        removed, restartTimer := WindDown(driftMillis, wind);
      } else if driftMillis > RestartTime {
        Restart(sampleTicks);
        restartTimer := true;
      }
    }

    /** A new drift starts snowing, with the budget averaged with a fresh sample. */
    method Restart(sampleTicks: nat)
      requires Valid()
      modifies this`algorithmTicks, this`drift, this`stopSnow
      ensures Valid() && fresh(drift) && !stopSnow
      ensures algorithmTicks == (sampleTicks / 10 + old(algorithmTicks)) / 2
      ensures drift.SnowFlakeCount() == (if capacity > 0 then 1 else 0)
    {
      algorithmTicks := (sampleTicks / 10 + algorithmTicks) / 2;
      drift := new SnowDrift(screenWidth, screenHeight, capacity, trailLength, patterns);
      stopSnow := false;
    }

    /**
     * What the snowing phase of a tick did, from the old state to this one.
     * The drift was updated, which left `counted` active flakes and
     * `settled` pending removals (each active flake found outside the field
     * used one while any was left).  Then a cycle under budget made
     * AddRate(counted) AddFlakes calls, which raise the active flakes net of
     * pending removals by as many, unless the drift fills up; a cycle over
     * budget lengthened the run of slow cycles, asked for one removal once
     * that run was longer than UnderSpeedLimit, and left every flake as the
     * drift update made it.  Snowing stops once the drift has snowed for
     * SnowingTime.
     */
    twostate predicate Snowed(cycleTicks: int, driftMillis: int, new wind: (nat, Vec) -> Vec,
                              added: int, removed: int, counted: int, settled: int, new mid: seq<FlakeState>)
      requires old(Valid()) && Valid()
      reads this`drift, this`algorithmTicks, this`underSpeedCounter, this`stopSnow, drift, drift.snowflakes, drift.live
    {
      && stopSnow == (driftMillis >= SnowingTime)
      && settled == old(Consumed(drift.toRemove, Outside(StatesOf(drift.live), drift.flags, drift.numFlakes, drift.width, drift.height)))
      && counted >= 0 && counted - settled == old(drift.SnowFlakeCount() - drift.toRemove)
      && drift.SnowFlakeCount() <= old(drift.SnowFlakeCount()) + added
      && (cycleTicks < old(algorithmTicks) ==>
            && 1 <= added <= MaxFlakesRate && added == AddRate(counted) && removed == 0 && underSpeedCounter == 0
            && old(drift.numFlakes) <= drift.numFlakes && drift.live[..old(drift.numFlakes)] == old(drift.live)
            && drift.AllAdvanced(old(StatesOf(drift.live)), old(drift.flags), mid, old(drift.live), wind)
            && InStates(drift.live, mid)
            && (|| drift.SnowFlakeCount() - drift.toRemove == counted - settled + added
                || (drift.SnowFlakeCount() == capacity && drift.toRemove <= 0)))
      && (cycleTicks >= old(algorithmTicks) ==>
            && added == 0 && underSpeedCounter == old(underSpeedCounter) + 1
            && removed == (if underSpeedCounter > UnderSpeedLimit then 1 else 0)
            && drift.toRemove == (if removed == 1 && settled + 1 > drift.numFlakes then drift.numFlakes else settled + removed)
            && drift.numFlakes == old(drift.numFlakes) && drift.live == old(drift.live)
            && drift.AllUpdated(old(StatesOf(drift.live)), old(drift.flags), wind))
    }

    /** The snowing phase of a tick (see Snowed). */
    method Snow(cycleTicks: int, driftMillis: int, wind: (nat, Vec) -> Vec)
      returns (added: int, removed: int, ghost counted: int, ghost settled: int, ghost mid: seq<FlakeState>)
      requires Valid()
      modifies this`underSpeedCounter, this`stopSnow, drift, drift.snowflakes, drift.live
      ensures Valid() && Snowed(cycleTicks, driftMillis, wind, added, removed, counted, settled, mid)
    {
      ghost var before := StatesOf(drift.live);
      added, removed, mid := 0, 0, [];
      stopSnow, underSpeedCounter := driftMillis >= SnowingTime, if cycleTicks < algorithmTicks then 0 else underSpeedCounter + 1;
      assert StatesOf(drift.live) == before && drift.SnowFlakeCount() == old(drift.SnowFlakeCount());
      if cycleTicks < algorithmTicks {
        added, counted, settled, mid := FastCycle(wind);
      } else {
        removed, counted, settled := SlowCycle(wind);
      }
    }

    /**
     * A snowing cycle under budget: the drift is updated, then AddRate of
     * its active flakes are added, each cancelling a pending removal or
     * activating a flake until the drift is full.
     */
    method FastCycle(wind: (nat, Vec) -> Vec) returns (added: int, ghost counted: int, ghost settled: int, ghost mid: seq<FlakeState>)
      requires Valid()
      modifies drift, drift.snowflakes, drift.live
      ensures Valid()
      ensures settled == old(Consumed(drift.toRemove, Outside(StatesOf(drift.live), drift.flags, drift.numFlakes, drift.width, drift.height)))
      ensures counted >= 0 && counted - settled == old(drift.SnowFlakeCount() - drift.toRemove)
      ensures added == AddRate(counted)
      ensures drift.SnowFlakeCount() <= old(drift.SnowFlakeCount()) + added
      ensures || drift.SnowFlakeCount() - drift.toRemove == counted - settled + added
              || (drift.SnowFlakeCount() == capacity && drift.toRemove <= 0)
      ensures old(drift.numFlakes) <= drift.numFlakes && drift.live[..old(drift.numFlakes)] == old(drift.live)
      ensures drift.AllAdvanced(old(StatesOf(drift.live)), old(drift.flags), mid, old(drift.live), wind)
      ensures InStates(drift.live, mid)
    {
      mid := UpdateDrift(wind);
      counted, settled := drift.SnowFlakeCount(), drift.toRemove;
      added := AddRate(drift.SnowFlakeCount());
      drift.AddBatch(added);
    }

    /**
     * The drift update of a snowing tick: every flake makes its step from
     * its old state, leaving the states `mid`, and the pending removals are
     * used by the active flakes found outside the field.
     */
    method UpdateDrift(wind: (nat, Vec) -> Vec) returns (ghost mid: seq<FlakeState>)
      requires Valid()
      modifies drift, drift.live
      ensures Valid() && drift.numFlakes == old(drift.numFlakes) && drift.live == old(drift.live)
      ensures drift.toRemove == old(Consumed(drift.toRemove, Outside(StatesOf(drift.live), drift.flags, drift.numFlakes, drift.width, drift.height)))
      ensures drift.SnowFlakeCount() - drift.toRemove == old(drift.SnowFlakeCount() - drift.toRemove)
      ensures drift.AllAdvanced(old(StatesOf(drift.live)), old(drift.flags), mid, old(drift.live), wind) && InStates(drift.live, mid)
    {
      ghost var before, on := StatesOf(drift.live), drift.flags;
      drift.Update(wind);
      drift.UpdatedAdvanced(before, on, wind);
      mid := StatesOf(drift.live);
    }

    /**
     * A snowing cycle over budget, the run of slow cycles already counted:
     * the drift is updated, and once that run is longer than
     * UnderSpeedLimit one removal is asked for, capped at the number of
     * flakes.
     */
    method SlowCycle(wind: (nat, Vec) -> Vec) returns (removed: int, ghost counted: int, ghost settled: int)
      requires Valid()
      modifies drift, drift.live
      ensures Valid()
      ensures settled == old(Consumed(drift.toRemove, Outside(StatesOf(drift.live), drift.flags, drift.numFlakes, drift.width, drift.height)))
      ensures counted >= 0 && counted - settled == old(drift.SnowFlakeCount() - drift.toRemove)
      ensures drift.SnowFlakeCount() <= old(drift.SnowFlakeCount())
      ensures removed == (if underSpeedCounter > UnderSpeedLimit then 1 else 0)
      ensures drift.toRemove == (if removed == 1 && settled + 1 > drift.numFlakes then drift.numFlakes else settled + removed)
      ensures drift.numFlakes == old(drift.numFlakes) && drift.live == old(drift.live)
      ensures drift.AllUpdated(old(StatesOf(drift.live)), old(drift.flags), wind)
    {
      drift.Update(wind);
      counted, settled := drift.SnowFlakeCount(), drift.toRemove;
      removed := 0;
      if underSpeedCounter > UnderSpeedLimit {
        drift.RemoveFlakes(1);
        removed := 1;
      }
    }

    /**
     * What the wind-down phase of a tick did, from the old state to this
     * one.  Once FlakeRemovalTime has passed on the drift's stopwatch,
     * RemoveRate of the active flakes were asked to be removed (capped at
     * the number of flakes) and the stopwatch restarts.  Then the drift was
     * updated: every flake made its step (see AllUpdated), and the pending
     * removals were used by the active flakes found outside the field.
     */
    twostate predicate WoundDown(driftMillis: int, new wind: (nat, Vec) -> Vec, removed: int, restartTimer: bool)
      requires old(Valid()) && Valid()
      reads this`drift, this`algorithmTicks, this`underSpeedCounter, drift, drift.snowflakes, drift.live
    {
      var capped := if old(drift.toRemove) + removed > old(drift.numFlakes) then old(drift.numFlakes)
                    else old(drift.toRemove) + removed;
      && drift == old(drift)
      && restartTimer == (driftMillis > FlakeRemovalTime)
      && removed == (if driftMillis > FlakeRemovalTime then RemoveRate(old(drift.SnowFlakeCount())) else 0)
      && drift.numFlakes == old(drift.numFlakes) && drift.live == old(drift.live)
      && drift.toRemove == Consumed(capped, old(Outside(StatesOf(drift.live), drift.flags, drift.numFlakes, drift.width, drift.height)))
      && drift.toRemove + drift.turnedOff == capped + old(drift.turnedOff)
      && drift.SnowFlakeCount() <= old(drift.SnowFlakeCount())
      && drift.AllUpdated(old(StatesOf(drift.live)), old(drift.flags), wind)
    }

    /** The wind-down phase of a tick, while flakes are left (see WoundDown). */
    method WindDown(driftMillis: int, wind: (nat, Vec) -> Vec) returns (removed: int, restartTimer: bool)
      requires Valid() && drift.SnowFlakeCount() > 0
      modifies drift, drift.snowflakes, drift.live
      ensures Valid() && WoundDown(driftMillis, wind, removed, restartTimer)
    {
      removed, restartTimer := 0, false;
      if driftMillis > FlakeRemovalTime {
        removed := RemoveRate(drift.SnowFlakeCount());
        drift.RemoveFlakes(removed);
        restartTimer := true;
        assert StatesOf(drift.live) == old(StatesOf(drift.live));
      }
      drift.Update(wind);
    }
  }
}
