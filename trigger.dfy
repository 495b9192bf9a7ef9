/**
 * The per-frame trigger of the RandomItems plugin: time accumulates while the
 * plugin is running, and once it reaches the configured delay one item is
 * given and the accumulator goes back to zero.
 */
module Trigger {

  /** The timer fields of the plugin (seconds as mathematical reals). */
  datatype Timer = Timer(elapsed: real, delay: real, running: bool)

  /** One frame update with a delta of `dt` seconds: the new timer and whether an item is given. */
  function Tick(t: Timer, dt: real): (r: (Timer, bool))
    ensures r.0.delay == t.delay && r.0.running == t.running
    ensures r.1 <==> t.running && t.elapsed + dt >= t.delay
    ensures r.1 ==> r.0.elapsed == 0.0
    ensures !r.1 ==> r.0.elapsed == if t.running then t.elapsed + dt else t.elapsed
  {
    if !t.running then (t, false)
    else if t.elapsed + dt >= t.delay then (t.(elapsed := 0.0), true)
    else (t.(elapsed := t.elapsed + dt), false)
  }

  /** A sequence of frame updates: the final timer and the number of items given. */
  function Run(t: Timer, dts: seq<real>): (Timer, nat)
    decreases |dts|
  {
    if dts == [] then (t, 0)
    else
      var (t', gave) := Tick(t, dts[0]);
      var (final, n) := Run(t', dts[1..]);
      (final, n + if gave then 1 else 0)
  }

  function Sum(dts: seq<real>): real
    decreases |dts|
  {
    if dts == [] then 0.0 else dts[0] + Sum(dts[1..])
  }

  /** While the plugin is stopped, no sequence of ticks changes anything or gives anything. */
  lemma {:induction false} IdleTicksChangeNothing(t: Timer, dts: seq<real>)
    requires !t.running
    ensures Run(t, dts) == (t, 0)
    decreases |dts|
  {
    if dts != [] {
      IdleTicksChangeNothing(t, dts[1..]);
    }
  }

  /** Ticks never change the delay or the running flag. */
  lemma {:induction false} RunKeepsConfiguration(t: Timer, dts: seq<real>)
    ensures Run(t, dts).0.delay == t.delay && Run(t, dts).0.running == t.running
    decreases |dts|
  {
    if dts != [] {
      RunKeepsConfiguration(Tick(t, dts[0]).0, dts[1..]);
    }
  }

  /**
   * With a positive delay and non-negative deltas, every item given used up a
   * full delay of accumulated time: gives * delay + what is left over never
   * exceeds the time that passed.
   */
  lemma {:induction false} GivesBoundedByTime(t: Timer, dts: seq<real>)
    requires t.running && t.delay > 0.0 && t.elapsed >= 0.0
    requires forall k :: 0 <= k < |dts| ==> dts[k] >= 0.0
    ensures Run(t, dts).1 as real * t.delay + Run(t, dts).0.elapsed <= t.elapsed + Sum(dts)
    ensures Run(t, dts).0.elapsed >= 0.0
    decreases |dts|
  {
    if dts != [] {
      var (t', gave) := Tick(t, dts[0]);
      GivesBoundedByTime(t', dts[1..]);
    }
  }

  /** After at least one tick of a running timer with a positive delay, the accumulator is below the delay. */
  lemma {:induction false} ElapsedStaysBelowDelay(t: Timer, dts: seq<real>)
    requires t.running && t.delay > 0.0 && dts != []
    ensures Run(t, dts).0.elapsed < t.delay
    decreases |dts|
  {
    var t' := Tick(t, dts[0]).0;
    if |dts| > 1 {
      ElapsedStaysBelowDelay(t', dts[1..]);
    }
  }

  /** With a 2 s delay, ticks of 0.5, 0.5, 0.5 and 0.6 s give exactly one item, on the fourth tick. */
  lemma ExampleTrace()
    ensures Run(Timer(0.0, 2.0, true), [0.5, 0.5, 0.5]) == (Timer(1.5, 2.0, true), 0)
    ensures Run(Timer(0.0, 2.0, true), [0.5, 0.5, 0.5, 0.6]) == (Timer(0.0, 2.0, true), 1)
  {
  }
}
