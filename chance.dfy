/**
 * The random helper of the screensaver (a wrapper over System.Random).  Each
 * draw is modelled as an arbitrary choice from its inclusive range, so every
 * property proved about a caller holds whatever values are drawn.
 */
module Chance {

  /** Random.Int and Random.Short: any value of [lo, hi]. */
  method Int(lo: int, hi: int) returns (v: int)
    requires lo <= hi
    ensures lo <= v <= hi
  {
    v :| lo <= v <= hi;
  }
}
