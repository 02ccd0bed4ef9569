/** How often ANTIE's pull loop knocks on a server that does not answer. Durations are in milliseconds. */
module CarrierBackoff {
  import opened Numbers

  const CAP: nat := 30 * 60 * 1000
  const MIN_NETWORK_POLL: nat := 500

  /** `validate_poll_rate` */
  predicate IsPollRateAllowed(interval: nat, hasNetworkPull: bool) {
    !hasNetworkPull || interval >= MIN_NETWORK_POLL
  }

  function PowerOfTwo(k: nat): (p: nat)
    ensures p >= 1
  {
    if k == 0 then 1 else 2 * PowerOfTwo(k - 1)
  }

  /** `carrier_backoff`; a product too large for a duration reads as the cap, below which it would not be. */
  function Backoff(base: nat, failures: nat): nat {
    if failures == 0 then base else Min(base * PowerOfTwo(Min(failures, 16)), CAP)
  }

  /** The attempts at the end of `reached` that all failed, as the loop counts them. */
  function Streak(reached: seq<bool>): nat {
    if reached == [] || reached[|reached| - 1] then 0 else OneMore(Streak(reached[..|reached| - 1]))
  }

  /** `pull_loop`: what it waits after each attempt. */
  method PullLoop(base: nat, reached: seq<bool>) returns (waits: seq<nat>)
    ensures |waits| == |reached|
    ensures forall i :: 0 <= i < |waits| ==> waits[i] == Backoff(base, Streak(reached[..i + 1]))
  {
    waits := [];
    var failures: nat := 0;
    for i := 0 to |reached|
      invariant |waits| == i && failures == Streak(reached[..i])
      invariant forall j :: 0 <= j < i ==> waits[j] == Backoff(base, Streak(reached[..j + 1]))
    {
      assert reached[..i + 1][..i] == reached[..i];
      if reached[i] {
        failures := 0;
      } else {
        failures := OneMore(failures);
      }
      waits := waits + [Backoff(base, failures)];
    }
  }

  // ---------------------------------------------------------------- the delay

  lemma {:induction false} PowerMonotone(j: nat, k: nat)
    requires j <= k
    ensures PowerOfTwo(j) <= PowerOfTwo(k)
  {
    if j < k {
      PowerMonotone(j, k - 1);
    }
  }

  lemma ProductMonotone(base: nat, a: nat, b: nat)
    requires a <= b
    ensures base * a <= base * b
  {
  }

  /** Within a streak the delay never decreases, for any interval that is not above the cap. */
  lemma NeverDecreases(base: nat, f: nat, g: nat)
    requires base <= CAP && f <= g
    ensures Backoff(base, f) <= Backoff(base, g) <= CAP
  {
    PowerMonotone(Min(f, 16), Min(g, 16));
    ProductMonotone(base, PowerOfTwo(Min(f, 16)), PowerOfTwo(Min(g, 16)));
    ProductMonotone(base, 1, PowerOfTwo(Min(g, 16)));
  }

  /** For an interval above the cap the first failure shortens the delay. */
  lemma AboveTheCap(base: nat)
    requires base > CAP
    ensures Backoff(base, 1) < Backoff(base, 0)
  {
    ProductMonotone(base, 1, PowerOfTwo(Min(1, 16)));
  }

  lemma PowersAre()
    ensures PowerOfTwo(12) == 4096 && PowerOfTwo(16) == 65536
  {
    assert PowerOfTwo(4) == 16;
    assert PowerOfTwo(8) == 16 * PowerOfTwo(4);
    assert PowerOfTwo(12) == 16 * PowerOfTwo(8);
    assert PowerOfTwo(16) == 16 * PowerOfTwo(12);
  }

  /** An attempt that reached the server is waited for as long as the interval; each of the first sixteen failures after it doubles the
      wait, up to the cap, and later ones leave it. */
  lemma BackoffDoubles(base: nat, f: nat)
    ensures Backoff(base, 0) == base
    ensures f < 16 && (base <= CAP || f > 0) ==> Backoff(base, f + 1) == Min(2 * Backoff(base, f), CAP)
    ensures f >= 16 ==> Backoff(base, f) == Backoff(base, 16)
  {
    if f < 16 {
      var p := PowerOfTwo(f);
      assert PowerOfTwo(f + 1) == 2 * p;
      Twice(base, p);
    }
  }

  lemma Twice(base: nat, p: nat)
    ensures base * (2 * p) == 2 * (base * p)
  {
  }

  /** The streak is the number of failures since the last attempt that reached the server, or since the start. */
  lemma {:induction false} StreakIs(reached: seq<bool>, k: nat)
    requires k <= |reached| && (forall i :: |reached| - k <= i < |reached| ==> !reached[i])
    requires k < |reached| ==> reached[|reached| - k - 1]
    ensures Streak(reached) == Min(k, MAX_U32)
    decreases |reached|
  {
    if k > 0 {
      var before := reached[..|reached| - 1];
      assert !reached[|reached| - 1];
      StreakIs(before, k - 1);
    }
  }

  /** From the twelfth failure on the delay is the cap, exactly for intervals of at least 440 ms. */
  lemma CappedByTwelveIff(base: nat)
    ensures base >= 440 <==> forall f :: f >= 12 ==> Backoff(base, f) == CAP
  {
    PowersAre();
    if base >= 440 {
      forall f | f >= 12
        ensures Backoff(base, f) == CAP
      {
        PowerMonotone(12, Min(f, 16));
        ProductMonotone(base, 4096, PowerOfTwo(Min(f, 16)));
      }
    } else {
      assert Backoff(base, 12) == base * 4096;
    }
  }

  /** The exponent stops at 16, so an interval below 28 ms never reaches the cap; none that is allowed for a network
      carrier is that short. */
  lemma ReachesCapIff(base: nat)
    ensures (exists f :: f > 0 && Backoff(base, f) == CAP) <==> base >= 28
  {
    PowersAre();
    if base >= 28 {
      assert Backoff(base, 16) == CAP;
    } else {
      forall f | f > 0
        ensures Backoff(base, f) < CAP
      {
        PowerMonotone(Min(f, 16), 16);
        ProductMonotone(base, PowerOfTwo(Min(f, 16)), 65536);
      }
    }
  }

  // ---------------------------------------------------------------- attempts

  /** Attempts happen at these moments: each no sooner than the last one's delay after it. */
  predicate IsPaced(base: nat, reached: seq<bool>, times: seq<nat>) {
    |times| == |reached| &&
    forall i :: 0 <= i < |times| - 1 ==> times[i] + Backoff(base, Streak(reached[..i + 1])) <= times[i + 1]
  }

  predicate AllFail(reached: seq<bool>, from: nat, to: nat)
    requires from <= to <= |reached|
  {
    forall i :: from <= i < to ==> !reached[i]
  }

  lemma {:induction false} StreakGrows(reached: seq<bool>, from: nat, k: nat)
    requires from + k < |reached| && AllFail(reached, from, from + k + 1) && k < MAX_U32
    ensures Streak(reached[..from + k + 1]) >= k + 1
    decreases k
  {
    assert reached[..from + k + 1][..from + k] == reached[..from + k];
    if k > 0 {
      StreakGrows(reached, from, k - 1);
    }
  }

  /** From the twelfth failure of a streak on, each attempt is a cap's time after the one before. */
  lemma {:induction false} LateAttempts(base: nat, reached: seq<bool>, times: seq<nat>, from: nat, n: nat)
    requires 440 <= base && IsPaced(base, reached, times)
    requires 12 <= n <= MAX_U32 && from + n <= |reached| && AllFail(reached, from, from + n)
    ensures times[from] + (n - 12) * CAP <= times[from + n - 1]
    decreases n
  {
    if n == 12 {
      EarlyAttempts(base, reached, times, from, 12);
    } else {
      LateAttempts(base, reached, times, from, n - 1);
      CappedAttempt(base, reached, times, from, n);
    }
  }

  lemma CappedAttempt(base: nat, reached: seq<bool>, times: seq<nat>, from: nat, n: nat)
    requires 440 <= base && IsPaced(base, reached, times)
    requires 12 < n <= MAX_U32 && from + n <= |reached| && AllFail(reached, from, from + n)
    ensures times[from + n - 2] + CAP <= times[from + n - 1]
  {
    StreakGrows(reached, from, n - 2);
    var i := from + n - 2;
    assert i + 1 == from + (n - 2) + 1;
    CappedByTwelveIff(base);
    assert Backoff(base, Streak(reached[..i + 1])) == CAP;
  }

  lemma {:induction false} EarlyAttempts(base: nat, reached: seq<bool>, times: seq<nat>, from: nat, n: nat)
    requires IsPaced(base, reached, times) && 0 < n && from + n <= |reached|
    ensures times[from] <= times[from + n - 1]
    decreases n
  {
    if n > 1 {
      EarlyAttempts(base, reached, times, from, n - 1);
    }
  }

  lemma Divides(n: nat, width: nat)
    requires n * CAP <= width
    ensures n <= width / CAP
  {
  }

  /** A loop that fails throughout some stretch of time T makes at most T / cap + 12 attempts in it, at any interval that
      is allowed for a network carrier. */
  lemma AttemptBound(base: nat, reached: seq<bool>, times: seq<nat>, from: nat, n: nat)
    requires IsPollRateAllowed(base, true) && IsPaced(base, reached, times)
    requires 0 < n <= MAX_U32 && from + n <= |reached| && AllFail(reached, from, from + n)
    ensures times[from] <= times[from + n - 1]
    ensures n <= (times[from + n - 1] - times[from]) / CAP + 12
  {
    EarlyAttempts(base, reached, times, from, n);
    if n > 12 {
      LateAttempts(base, reached, times, from, n);
      Divides(n - 12, times[from + n - 1] - times[from]);
    }
  }
}
