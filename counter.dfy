// The animated statistics counters: each `.stat-number` counts from 0 up to its
// `data-target` in fixed ticks, started once, the first time the counter
// scrolls into view. Arithmetic is on exact reals (JavaScript's doubles are not
// modelled).
module Counter {

  /** The animation's length and tick interval, in milliseconds. */
  const Duration: int := 2000
  const StepTime: int := 50
  /** Ticks in a full animation. */
  const Steps: int := Duration / StepTime

  /** The increment added on each tick: `target / steps`. */
  function Increment(target: int): (r: real)
    // the increment has the target's sign
    ensures target > 0 <==> r > 0.0
    ensures target == 0 <==> r == 0.0
  {
    (target as real) / (Steps as real)
  }

  /** `current` after `k` unclamped ticks: the increment added `k` times. */
  function Accumulated(target: int, k: nat): real
  {
    if k == 0 then 0.0 else Accumulated(target, k - 1) + Increment(target)
  }

  /** `k` increments add up to `k` times the increment. */
  lemma {:induction false} AccumulatedIsProduct(target: int, k: nat)
    ensures Accumulated(target, k) == (k as real) * Increment(target)
  {
    if k > 0 {
      AccumulatedIsProduct(target, k - 1);
    }
  }

  /** The value on display after tick `k` (from 1) of a counter towards `target`:
      the accumulated increments, clamped to the target once reached, rounded
      down. A target of 0 or less is reached by the first increment. */
  function ShownAfter(target: int, k: nat): (v: int)
    requires k >= 1
    ensures v <= target
    ensures target >= 0 ==> 0 <= v
    ensures k >= Steps ==> v == target
  {
    var current := Accumulated(target, k);
    if target <= 0 then target
    else
      TicksBelowTarget(target, k);
      if current >= target as real then target else current.Floor
  }

  /** The counter's closure state while its interval timer runs. */
  class CounterAnimation {
    const target: int
    const increment: real
    var current: real
    /** Whether the interval timer is still set. */
    var running: bool
    /** The element's text, as the number it shows. */
    var text: int

    /** `animateCounter(counter)` for a counter whose `data-target` parses to
        `target`, showing `text` before the first tick. */
    constructor (target: int, text: int)
      ensures this.target == target && increment == Increment(target)
      ensures current == 0.0 && running && this.text == text
    {
      this.target := target;
      increment := Increment(target);
      current, running, this.text := 0.0, true, text;
    }

    /** One firing of the interval timer. */
    method Tick()
      requires running
      modifies this
      ensures old(current) + increment >= target as real ==> current == target as real && !running
      ensures old(current) + increment < target as real ==> current == old(current) + increment && running
      ensures text == current.Floor
    {
      current := current + increment;
      if current >= target as real {
        current := target as real;
        running := false;
      }
      text := current.Floor;
    }
  }

  /** The accumulated increments of a positive target stay below it until the
      last tick, and are never negative. */
  lemma TicksBelowTarget(target: int, k: nat)
    requires target > 0
    ensures Accumulated(target, k) >= target as real <==> k >= Steps
    ensures Accumulated(target, k) >= 0.0
  {
    var inc := Increment(target);
    AccumulatedIsProduct(target, k);
    assert inc > 0.0;
    assert (Steps as real) * inc == target as real;
    assert Accumulated(target, k) == (k as real) * inc;
    assert (k as real) * inc >= 0.0;
    if k >= Steps {
      assert (k as real) * inc >= (Steps as real) * inc;
      assert Accumulated(target, k) >= target as real;
    } else {
      assert (k as real) * inc < (Steps as real) * inc;
      assert Accumulated(target, k) < target as real;
    }
  }

  /** A counter animated to the end: the texts shown after each tick, from the
      first tick to the one that clears the timer. Every text is at most the
      target (for a non-negative target, at least 0), the texts never decrease,
      the last one is the target, and a positive target takes exactly `Steps`
      ticks while any other stops after one. */
  method Animate(target: int) returns (shown: seq<int>)
    ensures |shown| == if target > 0 then Steps else 1
    ensures forall i :: 0 <= i < |shown| ==> shown[i] == ShownAfter(target, i + 1)
    ensures forall i :: 0 <= i < |shown| ==> shown[i] <= target
    ensures target >= 0 ==> forall i :: 0 <= i < |shown| ==> shown[i] >= 0
    ensures forall i, j :: 0 <= i <= j < |shown| ==> shown[i] <= shown[j]
    ensures shown[|shown| - 1] == target
  {
    var c := new CounterAnimation(target, 0);
    shown := [];
    while c.running
      invariant c.target == target && c.increment == Increment(target)
      invariant c.running <==> (|shown| == 0 || (target > 0 && |shown| < Steps))
      invariant c.running ==> c.current == Accumulated(target, |shown|)
      invariant |shown| <= Steps && (target <= 0 ==> |shown| <= 1)
      invariant forall i :: 0 <= i < |shown| ==> shown[i] == ShownAfter(target, i + 1)
      invariant forall i :: 0 <= i < |shown| ==> shown[i] <= target
      invariant forall i, j :: 0 <= i <= j < |shown| ==> shown[i] <= shown[j]
      invariant !c.running ==> |shown| > 0 && shown[|shown| - 1] == target
      decreases Steps - |shown|
    {
      ghost var n := |shown|;
      TickStep(target, n);
      c.Tick();
      assert c.text == ShownAfter(target, n + 1);
      if n > 0 {
        ShownAfterMonotone(target, n, n + 1);
        assert forall i :: 0 <= i < n ==> shown[i] <= shown[n - 1] <= c.text;
      }
      shown := shown + [c.text];
    }
  }

  /** One tick after `n` increments: what it shows, and whether the timer stays
      set. */
  lemma TickStep(target: int, n: nat)
    requires n == 0 || (target > 0 && n < Steps)
    ensures var sum := Accumulated(target, n + 1);
      (if sum >= target as real then target as real else sum).Floor == ShownAfter(target, n + 1)
    ensures Accumulated(target, n + 1) < target as real <==> target > 0 && n + 1 < Steps
  {
    if target > 0 {
      TicksBelowTarget(target, n + 1);
    } else {
      assert n == 0 && Steps as real == 40.0;
      assert Accumulated(target, 1) == Increment(target) >= target as real;
    }
  }

  /** For a positive target the accumulated increments only grow. */
  lemma {:induction false} AccumulatedGrows(target: int, k: nat, m: nat)
    requires target > 0 && k <= m
    ensures Accumulated(target, k) <= Accumulated(target, m)
    decreases m - k
  {
    if k < m {
      AccumulatedGrows(target, k, m - 1);
      assert Increment(target) > 0.0;
    }
  }

  /** The shown value never goes down from one tick to a later one. */
  lemma ShownAfterMonotone(target: int, k: nat, m: nat)
    requires 1 <= k <= m
    ensures ShownAfter(target, k) <= ShownAfter(target, m)
  {
    if target > 0 {
      var a, b := Accumulated(target, k), Accumulated(target, m);
      AccumulatedGrows(target, k, m);
      TicksBelowTarget(target, k);
      TicksBelowTarget(target, m);
      if b < target as real {
        assert a.Floor as real <= a <= b < b.Floor as real + 1.0;
      }
    }
  }

  /** The counter observer's check on one intersection entry: start the animation
      when the counter is visible and not yet marked `animated`, and mark it. */
  function Observe(animated: bool, intersecting: bool): (r: (bool, bool))
    ensures r.0 <==> intersecting && !animated
    ensures r.1 <==> animated || intersecting
  {
    if intersecting && !animated then (true, true) else (false, animated)
  }

  /** How many animations a run of intersection entries for one counter starts. */
  function Starts(animated: bool, entries: seq<bool>): (n: nat)
    ensures n <= 1
    ensures animated ==> n == 0
    ensures n == 1 <==> !animated && exists i :: 0 <= i < |entries| && entries[i]
    decreases |entries|
  {
    if |entries| == 0 then 0
    else
      var (start, marked) := Observe(animated, entries[0]);
      var rest := Starts(marked, entries[1..]);
      assert !animated && !entries[0] ==>
        ((exists i :: 0 <= i < |entries| && entries[i]) <==>
         (exists i :: 0 <= i < |entries[1..]| && entries[1..][i]));
      (if start then 1 else 0) + rest
  }
}
