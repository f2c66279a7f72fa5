/*
 * Conversions from a remaining operating time to the largest number of bikes
 * that fit into it (helpers/TimeHelper.cpp). Times are exact reals; the
 * program's double division followed by floor becomes real division and
 * `.Floor`.
 */
module TimeHelper {

  /**
   * n·k as repeated addition. Times built from it unfold to sums, which keeps
   * products of two unknowns out of proofs that only add times up.
   */
  function Times(n: int, k: int): (r: int)
    ensures n >= 0 && k >= 0 ==> r >= 0
    ensures n <= 0 && k >= 0 ==> r <= 0
    decreases if n >= 0 then n else -n
  {
    if n == 0 then 0 else if n > 0 then Times(n - 1, k) + k else Times(n + 1, k) - k
  }

  /** Repeated addition is multiplication. */
  lemma {:induction false} TimesIsProduct(n: int, k: int)
    ensures Times(n, k) == n * k
    decreases if n >= 0 then n else -n
  {
    if n > 0 {
      TimesIsProduct(n - 1, k);
    } else if n < 0 {
      TimesIsProduct(n + 1, k);
    }
  }

  /** Bikes a repairman can repair in `remainingTime`, each taking `repairTime`. */
  function MaxRepairQByTime(repairTime: int, remainingTime: real): (q: int)
    requires repairTime > 0
    ensures q as real * repairTime as real <= remainingTime
    ensures remainingTime < (q + 1) as real * repairTime as real
  {
    var q := (remainingTime / repairTime as real).Floor;
    assert q as real <= remainingTime / repairTime as real < (q + 1) as real;
    DivBounds(remainingTime, repairTime as real, q);
    q
  }

  /**
   * Bikes a truck can move in `remainingTime`: each bike is handled twice
   * (loaded and unloaded), `loadingTime` each time.
   */
  function MaxLoadQByTime(loadingTime: int, remainingTime: real): (q: int)
    requires loadingTime > 0
    ensures 2.0 * q as real * loadingTime as real <= remainingTime
    ensures remainingTime < 2.0 * (q + 1) as real * loadingTime as real
  {
    var q := (remainingTime / loadingTime as real / 2.0).Floor;
    assert remainingTime / loadingTime as real / 2.0 == remainingTime / (2.0 * loadingTime as real);
    DivBounds(remainingTime, 2.0 * loadingTime as real, q);
    assert 2.0 * q as real * loadingTime as real == q as real * (2.0 * loadingTime as real);
    assert 2.0 * (q + 1) as real * loadingTime as real == (q + 1) as real * (2.0 * loadingTime as real);
    q
  }

  /** Multiplying the floor bounds of `t / d` back by `d`. */
  lemma DivBounds(t: real, d: real, q: int)
    requires d > 0.0
    requires q as real <= t / d < (q + 1) as real
    ensures q as real * d <= t < (q + 1) as real * d
  {
    assert t == (t / d) * d;
  }

  /** Two floor bounds against one positive unit `d` order their counts like their times. */
  lemma CountsFollowTimes(a: int, b: int, d: real, ta: real, tb: real)
    requires d > 0.0 && ta <= tb
    requires a as real * d <= ta && tb < (b + 1) as real * d
    ensures a <= b
  {
    var lo := a as real * d;
    var hi := (b + 1) as real * d;
    assert lo < hi;
    assert hi - lo == (b + 1 - a) as real * d;
  }

  /** No time, no bikes; some time, never a negative count. */
  lemma MaxRepairQNonNegative(repairTime: int, t: real)
    requires repairTime > 0 && t >= 0.0
    ensures MaxRepairQByTime(repairTime, t) >= 0
  {
    var q := MaxRepairQByTime(repairTime, t);
    CountsFollowTimes(0, q, repairTime as real, 0.0, t);
  }

  lemma MaxLoadQNonNegative(loadingTime: int, t: real)
    requires loadingTime > 0 && t >= 0.0
    ensures MaxLoadQByTime(loadingTime, t) >= 0
  {
    var q := MaxLoadQByTime(loadingTime, t);
    var L2 := 2.0 * loadingTime as real;
    assert 2.0 * (q + 1) as real * loadingTime as real == (q + 1) as real * L2;
    CountsFollowTimes(0, q, L2, 0.0, t);
  }

  /** More time never allows fewer repairs. */
  lemma MaxRepairQMonotone(repairTime: int, t1: real, t2: real)
    requires repairTime > 0 && t1 <= t2
    ensures MaxRepairQByTime(repairTime, t1) <= MaxRepairQByTime(repairTime, t2)
  {
    CountsFollowTimes(MaxRepairQByTime(repairTime, t1), MaxRepairQByTime(repairTime, t2), repairTime as real, t1, t2);
  }

  /** More time never allows fewer loads. */
  lemma MaxLoadQMonotone(loadingTime: int, t1: real, t2: real)
    requires loadingTime > 0 && t1 <= t2
    ensures MaxLoadQByTime(loadingTime, t1) <= MaxLoadQByTime(loadingTime, t2)
  {
    var q1, q2 := MaxLoadQByTime(loadingTime, t1), MaxLoadQByTime(loadingTime, t2);
    var L2 := 2.0 * loadingTime as real;
    assert 2.0 * q1 as real * loadingTime as real == q1 as real * L2;
    assert 2.0 * (q2 + 1) as real * loadingTime as real == (q2 + 1) as real * L2;
    CountsFollowTimes(q1, q2, L2, t1, t2);
  }

  /** Loading `n` bikes, no more than the time allows, takes no more than the time: 2·n·loadingTime ≤ t. */
  lemma LoadTimeFits(loadingTime: int, t: real, n: int)
    requires loadingTime > 0 && 0 <= n <= MaxLoadQByTime(loadingTime, t)
    ensures (2 * n * loadingTime) as real <= t
  {
    var q := MaxLoadQByTime(loadingTime, t);
    var L2 := 2.0 * loadingTime as real;
    assert (2 * n * loadingTime) as real == n as real * L2;
    assert 2.0 * q as real * loadingTime as real == q as real * L2;
    assert n as real * L2 <= q as real * L2;
  }

  /** Time for one bike (loaded and unloaded) allows at least one. */
  lemma OneLoadFits(loadingTime: int, t: real)
    requires loadingTime > 0 && t >= (2 * loadingTime) as real
    ensures MaxLoadQByTime(loadingTime, t) >= 1
  {
    var q := MaxLoadQByTime(loadingTime, t);
    var L2 := 2.0 * loadingTime as real;
    assert 2.0 * (q + 1) as real * loadingTime as real == (q + 1) as real * L2;
    CountsFollowTimes(1, q, L2, L2, t);
  }

  /** Repairing `n` bikes, no more than the time allows, takes no more than the time. */
  lemma RepairTimeFits(repairTime: int, t: real, n: int)
    requires repairTime > 0 && 0 <= n <= MaxRepairQByTime(repairTime, t)
    ensures (n * repairTime) as real <= t
  {
    var q := MaxRepairQByTime(repairTime, t);
    assert (n * repairTime) as real == n as real * repairTime as real;
    assert n as real * repairTime as real <= q as real * repairTime as real;
  }

  /** After moving as many bikes as the time allows, less than one bike's worth of time is left. */
  lemma LoadLeavesLessThanOne(loadingTime: int, t: real)
    requires loadingTime > 0
    ensures t - (2 * MaxLoadQByTime(loadingTime, t) * loadingTime) as real < (2 * loadingTime) as real
  {
    var q := MaxLoadQByTime(loadingTime, t);
    var L2 := 2.0 * loadingTime as real;
    assert (2 * q * loadingTime) as real == q as real * L2;
    assert 2.0 * (q + 1) as real * loadingTime as real == (q + 1) as real * L2;
    assert (2 * loadingTime) as real == L2;
  }
}
