// The loading screen: a simulated progress bar that grows by a random amount
// every 100 ms until it reaches 100 %, then the overlay is hidden (500 ms later,
// when the hero animations start) and removed (300 ms after that).
module Loading {

  /** Progress is a percentage. */
  const Full: real := 100.0
  /** `Math.random() * 30` is below this. */
  const MaxStep: real := 30.0

  /** Where the loading screen is: the interval still running; the interval
      cleared and the hide timeout pending; the `hidden` class added and the
      removal timeout pending; the overlay removed from the document. */
  datatype Phase = Running | Finishing | Hidden | Removed

  /** The sum of the increments drawn so far. */
  function Sum(xs: seq<real>): real
  {
    if |xs| == 0 then 0.0 else Sum(xs[..|xs| - 1]) + xs[|xs| - 1]
  }

  /** Progress as displayed: the sum, clamped at 100. */
  function Clamped(x: real): (r: real)
    ensures r <= Full
    ensures r == Full <==> x >= Full
    ensures x < Full ==> r == x
  {
    if x >= Full then Full else x
  }

  /** The bar width after the draw at index `k`: the running sum, clamped. */
  function WidthAfter(steps: seq<real>, k: nat): (r: real)
    requires k < |steps|
    ensures r <= Full
    ensures r == Full || r == Sum(steps[..k + 1])
    ensures r == Full <==> Sum(steps[..k + 1]) >= Full
  {
    Clamped(Sum(steps[..k + 1]))
  }

  /** A sum of non-negative increments only grows as more are drawn. */
  lemma {:induction false} SumMonotone(xs: seq<real>, i: nat, j: nat)
    requires i <= j <= |xs|
    requires forall k :: 0 <= k < |xs| ==> xs[k] >= 0.0
    ensures Sum(xs[..i]) <= Sum(xs[..j])
    decreases j - i
  {
    if i < j {
      SumMonotone(xs, i, j - 1);
      assert xs[..j][..j - 1] == xs[..j - 1];
    }
  }

  /** The `initLoadingScreen` closure and the elements it drives. */
  class LoadingScreen {
    var progress: real
    /** The progress bar's `style.width`, in percent (0 before the first tick). */
    var barWidth: real
    var phase: Phase
    /** Whether `triggerInitialAnimations()` has run. */
    var heroAnimated: bool

    constructor ()
      ensures progress == 0.0 && barWidth == 0.0 && phase == Running && !heroAnimated
    {
      progress, barWidth, phase, heroAnimated := 0.0, 0.0, Running, false;
    }

    /** One firing of the 100 ms interval, with `step` as the random increment. */
    method Tick(step: real)
      requires phase == Running && 0.0 <= step < MaxStep
      modifies this`progress, this`barWidth, this`phase
      ensures progress == Clamped(old(progress) + step) && barWidth == progress
      ensures phase == (if old(progress) + step >= Full then Finishing else Running)
    {
      progress := progress + step;
      if progress >= Full {
        progress := Full;
        phase := Finishing;
      }
      barWidth := progress;
    }

    /** The 500 ms timeout: hide the overlay and start the hero animations. */
    method HideTimeout()
      requires phase == Finishing
      modifies this`phase, this`heroAnimated
      ensures phase == Hidden && heroAnimated
    {
      phase := Hidden;
      heroAnimated := true;
    }

    /** The 300 ms timeout: remove the overlay from the document. */
    method RemoveTimeout()
      requires phase == Hidden
      modifies this`phase
      ensures phase == Removed
    {
      phase := Removed;
    }
  }

  /** The interval run against the random draws `steps`, until it clears itself or
      the draws run out: the bar widths shown. Each is the running sum clamped at
      100; they never decrease; only the last can be 100, and the interval takes
      no further draw once it is. */
  method Run(steps: seq<real>) returns (widths: seq<real>, screen: LoadingScreen)
    requires forall k :: 0 <= k < |steps| ==> 0.0 <= steps[k] < MaxStep
    ensures |widths| <= |steps|
    ensures forall i :: 0 <= i < |widths| ==> widths[i] == WidthAfter(steps, i)
    ensures forall i :: 0 <= i < |widths| ==> 0.0 <= widths[i] <= Full
    ensures forall i, j :: 0 <= i <= j < |widths| ==> widths[i] <= widths[j]
    ensures forall i :: 0 <= i < |widths| - 1 ==> widths[i] < Full
    ensures |widths| < |steps| ==> |widths| > 0 && widths[|widths| - 1] == Full
    ensures screen.phase == (if |widths| > 0 && widths[|widths| - 1] == Full then Finishing else Running)
  {
    screen := new LoadingScreen();
    widths := [];
    var i := 0;
    while i < |steps| && screen.phase == Running
      invariant i == |widths| <= |steps|
      invariant screen.phase == Running ==> screen.progress == Sum(steps[..i]) < Full
      invariant screen.phase == Running || screen.phase == Finishing
      invariant screen.phase == Finishing <==> i > 0 && widths[i - 1] == Full
      invariant forall k :: 0 <= k < i ==> widths[k] == WidthAfter(steps, k)
      invariant forall k :: 0 <= k < i - 1 ==> widths[k] < Full
    {
      assert steps[..i + 1][..i] == steps[..i];
      assert Sum(steps[..i + 1]) == Sum(steps[..i]) + steps[i];
      screen.Tick(steps[i]);
      widths := widths + [screen.barWidth];
      i := i + 1;
    }
    ClampedSumsGrow(steps, |widths|);
  }

  /** The clamped running sums of non-negative draws are non-negative and never
      decrease. */
  lemma ClampedSumsGrow(steps: seq<real>, n: nat)
    requires n <= |steps|
    requires forall k :: 0 <= k < |steps| ==> 0.0 <= steps[k]
    ensures forall k :: 0 <= k < n ==> 0.0 <= WidthAfter(steps, k)
    ensures forall k, l :: 0 <= k <= l < n ==> WidthAfter(steps, k) <= WidthAfter(steps, l)
  {
    forall k, l | 0 <= k <= l < n
      ensures 0.0 <= WidthAfter(steps, k) <= WidthAfter(steps, l)
    {
      SumMonotone(steps, 0, k + 1);
      SumMonotone(steps, k + 1, l + 1);
    }
  }
}
