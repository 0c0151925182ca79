/**
 * The loading-progress bar of the portfolio site (LoadingBar.tsx).
 *
 * When loading starts, progress is reset to 0 and an interval timer fires
 * every `TickMs` milliseconds; each tick adds `Increment` percent until a
 * tick whose sum reaches 100, which sets progress to exactly 100 and clears
 * the timer. Progress is a percentage, modelled as an exact `real`.
 */
module Loading {

  /** Intended length of a full load, in milliseconds. */
  const Duration: real := 600.0

  /** Period of the interval timer, in milliseconds. */
  const TickMs: real := 16.0

  /** Percent added per tick: 100 / (600 / 16), which is 8/3. */
  const Increment: real := 100.0 / (Duration / TickMs)

  /** Ticks from 0 to 100: 37 ticks give 98 2/3 percent, the 38th reaches 100. */
  const TicksToFull: nat := 38

  /**
   * The state updater run by one tick: the next value, clamped to exactly 100
   * once the sum reaches 100. The timer is cleared exactly when the result
   * is 100.
   */
  function NextProgress(prev: real): (next: real)
    ensures next == 100.0 <==> prev + Increment >= 100.0
    ensures 0.0 <= prev <= 100.0 ==> prev < next <= 100.0 || next == prev == 100.0
    ensures prev < 100.0 - Increment ==> next - prev == 8.0 / 3.0
  {
    var next := prev + Increment;
    if next >= 100.0 then 100.0 else next
  }

  /** Progress after `n` ticks since loading started. */
  function ProgressAfter(n: nat): (p: real)
  {
    if n == 0 then 0.0 else NextProgress(ProgressAfter(n - 1))
  }

  /**
   * Before the 38th tick, progress is exactly n * 8/3 and below 100; from the
   * 38th tick on it is exactly 100.
   */
  lemma {:induction false} ProgressAfterExact(n: nat)
    ensures n < TicksToFull ==> ProgressAfter(n) == n as real * Increment < 100.0
    ensures n >= TicksToFull ==> ProgressAfter(n) == 100.0
  {
    if n > 0 {
      ProgressAfterExact(n - 1);
    }
  }

  /** Progress stays within 0 and 100 on every tick. */
  lemma ProgressAfterBounded(n: nat)
    ensures 0.0 <= ProgressAfter(n) <= 100.0
  {
  }

  /** Progress never decreases from one tick to a later one. */
  lemma {:induction false} ProgressAfterMonotone(m: nat, n: nat)
    requires m <= n
    ensures ProgressAfter(m) <= ProgressAfter(n)
  {
    if m < n {
      ProgressAfterMonotone(m, n - 1);
      ProgressAfterBounded(n - 1);
    }
  }

  /** The timer is cleared on the 38th tick and on no earlier one. */
  lemma FullExactlyAtTick38(n: nat)
    ensures ProgressAfter(n) == 100.0 <==> n >= TicksToFull
  {
    ProgressAfterExact(n);
  }

  /**
   * The component's state: the `progress` state variable, whether an
   * interval timer is registered, and the `isLoading` value the effect last
   * ran with. `ticks` counts the ticks since the last start.
   */
  class LoadingBar {
    var progress: real
    var running: bool
    var loading: bool
    ghost var ticks: nat

    /**
     * Progress is the value reached after `ticks` ticks, and a registered
     * timer means loading is on and 100 has not been reached yet.
     */
    ghost predicate Valid()
      reads this
    {
      && progress == ProgressAfter(ticks)
      && (running ==> loading && ticks < TicksToFull)
    }

    /** Mount with the initial `isLoading`: progress starts at 0 and the effect runs once. */
    constructor (isLoading: bool)
      ensures Valid()
      ensures progress == 0.0 && ticks == 0
      ensures loading == isLoading && running == isLoading
    {
      progress, running, loading, ticks := 0.0, isLoading, isLoading, 0;
    }

    /**
     * A new `isLoading` value. The effect re-runs only when the value
     * changes: the previous run's cleanup clears its timer, and when loading
     * starts progress is reset to 0 before any tick and a new timer is set.
     * When loading stops, progress keeps its last value.
     */
    method SetLoading(isLoading: bool)
      requires Valid()
      modifies this
      ensures Valid()
      ensures loading == isLoading
      ensures isLoading == old(loading) ==> progress == old(progress) && running == old(running) && ticks == old(ticks)
      ensures isLoading && !old(loading) ==> progress == 0.0 && ticks == 0 && running
      ensures !isLoading ==> progress == old(progress) && !running && ticks == old(ticks)
    {
      if isLoading != loading {
        running := false;
        loading := isLoading;
        if isLoading {
          progress, ticks := 0.0, 0;
          running := true;
        }
      }
    }

    /**
     * 16 ms pass. A registered timer fires and applies the updater; the
     * timer clears itself on the tick that reaches 100. Without a timer
     * nothing changes.
     */
    method Tick()
      requires Valid()
      modifies this
      ensures Valid()
      ensures loading == old(loading)
      ensures old(running) ==> progress == NextProgress(old(progress)) && ticks == old(ticks) + 1
      ensures old(running) ==> running == (progress < 100.0)
      ensures !old(running) ==> progress == old(progress) && !running && ticks == old(ticks)
      ensures old(progress) <= progress <= 100.0
    {
      ProgressAfterBounded(ticks);
      if running {
        progress := NextProgress(progress);
        ticks := ticks + 1;
        ProgressAfterExact(ticks);
        if progress >= 100.0 {
          running := false;
        }
      }
    }

    /** Unmount: the cleanup clears a registered timer; progress is kept. */
    method Unmount()
      requires Valid()
      modifies this
      ensures Valid()
      ensures !running && progress == old(progress) && loading == old(loading) && ticks == old(ticks)
    {
      running := false;
    }
  }
}
