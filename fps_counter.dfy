/**
 * The frames-per-second estimator: a fixed window of frame durations in
 * milliseconds, a running total of the window and a cyclic write index.
 * The stopwatch reading of each frame is a parameter of MarkFrame.
 */
module Fps {
  import opened Common

  /** Sum of a window of frame durations. */
  function Sum(s: seq<int>): int
  {
    if s == [] then 0 else Sum(s[..|s| - 1]) + s[|s| - 1]
  }

  predicate AllNonNegative(s: seq<int>)
  {
    forall i :: 0 <= i < |s| ==> s[i] >= 0
  }

  lemma {:induction false} SumNonNegative(s: seq<int>)
    requires AllNonNegative(s)
    ensures Sum(s) >= 0
  {
    if s != [] {
      SumNonNegative(s[..|s| - 1]);
    }
  }

  lemma {:induction false} SumZeros(n: nat)
    ensures Sum(seq(n, _ => 0)) == 0
  {
    if n > 0 {
      assert seq(n, _ => 0)[..n - 1] == seq(n - 1, _ => 0);
      SumZeros(n - 1);
    }
  }

  /** Overwriting one slot changes the sum by the difference of the two values. */
  lemma {:induction false} SumUpdate(s: seq<int>, i: nat, v: int)
    requires i < |s|
    ensures Sum(s[i := v]) == Sum(s) - s[i] + v
  {
    var n := |s|;
    if i == n - 1 {
      assert s[i := v][..n - 1] == s[..n - 1];
    } else {
      assert s[i := v][..n - 1] == s[..n - 1][i := v];
      SumUpdate(s[..n - 1], i, v);
    }
  }

  /** The frame rate of a window of `frameCount` frames lasting `total` milliseconds. */
  function FpsOf(frameCount: nat, total: int): (r: int)
    requires total >= 0
    ensures total == 0 ==> r == 0
    ensures total > 0 ==> r >= 0 && r * total <= 1000 * frameCount < (r + 1) * total
  {
    if total == 0 then 0
    else
      var r := 1000 * frameCount / total;
      DivModUnique(1000 * frameCount, total, r, 1000 * frameCount % total);
      r
  }

  class FpsCounter {
    var window: array<int>
    var total: int
    var index: nat
    var fps: int

    ghost predicate Valid()
      reads this, window
    {
      && window.Length > 0
      && index < window.Length
      && AllNonNegative(window[..])
      && total == Sum(window[..])
      && total >= 0
      && fps == FpsOf(window.Length, total)
    }

    /** The constructor; the source throws for a non-positive frame count (see Create). */
    constructor (frameCount: int)
      requires frameCount > 0
      ensures Valid() && fresh(window)
      ensures window[..] == seq(frameCount, _ => 0)
      ensures total == 0 && index == 0 && fps == 0
    {
      var w := new int[frameCount](_ => 0);
      assert w[..] == seq(frameCount, _ => 0);
      SumZeros(frameCount);
      window, total, index, fps := w, 0, 0, 0;
    }

    /** Construction with the source's ArgumentException as a null result. */
    static method Create(frameCount: int) returns (c: FpsCounter?)
      ensures c == null <==> frameCount <= 0
      ensures c != null ==> fresh(c) && fresh(c.window) && c.Valid()
      ensures c != null ==> c.window[..] == seq(frameCount, _ => 0) && c.total == 0 && c.index == 0
    {
      if frameCount <= 0 {
        c := null;
      } else {
        c := new FpsCounter(frameCount);
      }
    }

    /** Records one frame lasting `elapsed` milliseconds. */
    method MarkFrame(elapsed: int)
      requires Valid() && elapsed >= 0
      modifies this, window
      ensures Valid()
      ensures window == old(window)
      ensures window[..] == old(window[..])[old(index) := elapsed]
      ensures index == (old(index) + 1) % window.Length
      ensures total == old(total) - old(window[index]) + elapsed
    {
      SumUpdate(window[..], index, elapsed);
      total := total - window[index];
      total := total + elapsed;
      window[index] := elapsed;
      index := (index + 1) % window.Length;
      SumNonNegative(window[..]);
      if total == 0 {
        fps := 0;
      } else {
        fps := 1000 * window.Length / total;
      }
    }
  }
}
