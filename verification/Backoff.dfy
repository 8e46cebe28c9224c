/** `SseReconnectPolicy::delay_for`: saturating exponential backoff with jitter, in nanoseconds. */
module Backoff {
  import opened Common

  const U32_MAX: nat := 0xFFFF_FFFF
  const U64_MAX: nat := 0xFFFF_FFFF_FFFF_FFFF
  const DURATION_MAX: nat := U64_MAX * 1_000_000_000 + 999_999_999

  type u32 = n: nat | n <= U32_MAX
  type u64 = n: nat | n <= U64_MAX
  type Duration = n: nat | n <= DURATION_MAX

  datatype Policy = Policy(initialDelay: Duration, maxDelay: Duration, maxRetries: Option<u32>)

  function Min(a: nat, b: nat): nat {
    if a <= b then a else b
  }

  function Pow2(n: nat): nat
    ensures Pow2(n) >= 1
  {
    if n == 0 then 1 else 2 * Pow2(n - 1)
  }

  // ----- The code ------------------------------------------------------------------------

  /** `2u32.saturating_pow(n)`. */
  function SaturatingPow2(n: u32): u32 {
    Min(Pow2(n), U32_MAX)
  }

  /** `Duration::saturating_mul`. */
  function SaturatingMul(d: Duration, factor: u32): Duration {
    Min(d * factor, DURATION_MAX)
  }

  /** `delay_for` with the hash value `r` it draws; the result type says that no addition overflows. */
  function DelayFor(p: Policy, failures: u32, r: u64): Duration {
    var factor := SaturatingPow2(if failures == 0 then 0 else failures - 1);
    var base := Min(SaturatingMul(p.initialDelay, factor), p.maxDelay);
    var half := base / 2;
    var span := Min(half, U64_MAX);
    half + r % Min(span + 1, U64_MAX)
  }

  // ----- What it computes ----------------------------------------------------------------

  /** The delay before jitter. */
  function Backoff(p: Policy, failures: nat): nat
    requires failures >= 1
  {
    Min(p.initialDelay * Min(Pow2(failures - 1), U32_MAX), p.maxDelay)
  }

  predicate InRange(p: Policy, failures: nat, delay: nat)
    requires failures >= 1
  {
    Backoff(p, failures) / 2 <= delay <= Backoff(p, failures)
  }

  /** Whatever the hash, the delay lies between half the backoff (rounded down) and the backoff. */
  lemma DelayInRange(p: Policy, failures: u32, r: u64)
    requires failures >= 1
    ensures InRange(p, failures, DelayFor(p, failures, r))
  {
    var base := Min(SaturatingMul(p.initialDelay, SaturatingPow2(failures - 1)), p.maxDelay);
    assert base == Backoff(p, failures);
    var bound := Min(Min(base / 2, U64_MAX) + 1, U64_MAX);
    assert 0 <= r % bound < bound;
  }

  /** The delays that some hash draws: up to twice the half, and at most 2^64 - 2 nanoseconds above it. */
  lemma JitterRangeIff(p: Policy, failures: u32, delay: nat)
    requires failures >= 1
    ensures (exists r: u64 :: DelayFor(p, failures, r) == delay)
       <==> var half := Backoff(p, failures) / 2; half <= delay <= half + Min(half, U64_MAX - 1)
  {
    var half := Backoff(p, failures) / 2;
    var bound := Min(half, U64_MAX - 1) + 1;
    forall r: u64
      ensures half <= DelayFor(p, failures, r) < half + bound
    {
      DelayIsHalfPlus(p, failures, r);
      Remainder(r, bound);
    }
    if half <= delay < half + bound {
      DelayIsHalfPlus(p, failures, delay - half);
      Remainder(delay - half, bound);
    }
  }

  lemma Remainder(r: nat, bound: nat)
    requires bound > 0
    ensures 0 <= r % bound < bound && (r < bound ==> r % bound == r)
  {
  }

  /** The upper end of the documented range `[d/2, d]` is drawn only when `d` is even (and its half fits the jitter). */
  lemma FullDelayDrawnIff(p: Policy, failures: u32)
    requires failures >= 1
    ensures (exists r: u64 :: DelayFor(p, failures, r) == Backoff(p, failures))
       <==> Backoff(p, failures) % 2 == 0 && Backoff(p, failures) / 2 < U64_MAX
  {
    JitterRangeIff(p, failures, Backoff(p, failures));
  }

  /** A delay of three nanoseconds is never waited in full. */
  lemma OddDelayIsShortened(r: u64)
    ensures Backoff(Policy(3, 3, None), 1) == 3 && DelayFor(Policy(3, 3, None), 1, r) < 3
  {
    DelayIsHalfPlus(Policy(3, 3, None), 1, r);
    Remainder(r, 2);
  }

  lemma DelayIsHalfPlus(p: Policy, failures: u32, r: u64)
    requires failures >= 1
    ensures var half := Backoff(p, failures) / 2;
            DelayFor(p, failures, r) == half + r % (Min(half, U64_MAX - 1) + 1)
  {
    assert Min(SaturatingMul(p.initialDelay, SaturatingPow2(failures - 1)), p.maxDelay) == Backoff(p, failures);
  }

  lemma {:induction false} Pow2Monotone(m: nat, n: nat)
    requires m <= n
    ensures Pow2(m) <= Pow2(n)
    decreases n
  {
    if m == n {
    } else {
      Pow2Monotone(m, n - 1);
    }
  }

  lemma Scale(a: nat, b: nat, c: nat)
    requires b <= c
    ensures a * b <= a * c
  {
  }

  lemma BackoffMonotone(p: Policy, f: nat, g: nat)
    requires 1 <= f <= g
    ensures Backoff(p, f) <= Backoff(p, g)
  {
    Pow2Monotone(f - 1, g - 1);
    Scale(p.initialDelay, Min(Pow2(f - 1), U32_MAX), Min(Pow2(g - 1), U32_MAX));
  }

  lemma Pow2Of32()
    ensures Pow2(31) <= U32_MAX && Pow2(32) == U32_MAX + 1
  {
    assert Pow2(8) == 256;
    assert Pow2(16) == 65536;
    assert Pow2(24) == 16777216;
    assert Pow2(31) == 2147483648;
  }

  /** A `u64` has 64 bits, and a `Duration` is a `u64` of seconds with nanoseconds. */
  lemma Widths()
    ensures U64_MAX + 1 == Pow2(64) && DURATION_MAX + 1 == Pow2(64) * 1_000_000_000
  {
    Pow2Of32();
    assert Pow2(40) == 0x100_0000_0000;
    assert Pow2(48) == 0x1_0000_0000_0000;
    assert Pow2(56) == 0x100_0000_0000_0000;
  }

  /**
    * The documented delay, `min(initial_delay * 2^(failures-1), max_delay)`, is the delay of the code
    * exactly until the 32-bit factor saturates below `max_delay`.
    */
  lemma DocumentedDelayIff(p: Policy, failures: nat)
    requires failures >= 1
    ensures Backoff(p, failures) == Min(p.initialDelay * Pow2(failures - 1), p.maxDelay)
       <==> failures <= 32 || p.initialDelay == 0 || p.maxDelay <= p.initialDelay * U32_MAX
  {
    Pow2Of32();
    if failures <= 32 {
      Pow2Monotone(failures - 1, 31);
    } else {
      Pow2Monotone(32, failures - 1);
      Scale(p.initialDelay, U32_MAX, Pow2(failures - 1));
      if p.initialDelay > 0 {
        Grows(p.initialDelay, U32_MAX, Pow2(failures - 1));
      }
    }
  }

  /** One nanosecond doubled 32 times is 2^32 nanoseconds in the documentation and 2^32 - 1 in the code. */
  lemma SaturationShortensDelay()
    ensures var p := Policy(1, DURATION_MAX, None);
            Backoff(p, 33) == U32_MAX && Min(p.initialDelay * Pow2(32), p.maxDelay) == U32_MAX + 1
  {
    Pow2Of32();
  }

  lemma Grows(a: nat, b: nat, c: nat)
    requires a > 0 && b < c
    ensures a * b < a * c
  {
  }

  // ----- Total wait ----------------------------------------------------------------------

  function Sum(s: seq<nat>): nat {
    if s == [] then 0 else Sum(s[..|s| - 1]) + s[|s| - 1]
  }

  function SumOfHalves(p: Policy, m: nat): nat {
    if m == 0 then 0 else SumOfHalves(p, m - 1) + Backoff(p, m) / 2
  }

  /**
    * The waits before the retries 1, 2, ... of one failing run add up to at most the geometric sum and
    * the capped sum.
    */
  lemma {:induction false} TotalWait(p: Policy, waits: seq<nat>)
    requires forall k :: 0 <= k < |waits| ==> InRange(p, k + 1, waits[k])
    ensures SumOfHalves(p, |waits|) <= Sum(waits)
    ensures Sum(waits) <= p.initialDelay * (Pow2(|waits|) - 1)
    ensures Sum(waits) <= |waits| * p.maxDelay
  {
    var m := |waits|;
    if m == 0 {
    } else {
      var init := waits[..m - 1];
      assert forall k :: 0 <= k < m - 1 ==> init[k] == waits[k];
      TotalWait(p, init);
      var last := waits[m - 1];
      assert InRange(p, m, last);
      LastWait(p, m, last);
      AddGeometric(p.initialDelay, Pow2(m - 1), Sum(init), last);
      AddLinear(m - 1, p.maxDelay, Sum(init), last);
    }
  }

  lemma LastWait(p: Policy, m: nat, wait: nat)
    requires m >= 1 && InRange(p, m, wait)
    ensures wait <= p.initialDelay * Pow2(m - 1) && wait <= p.maxDelay
  {
    Scale(p.initialDelay, Min(Pow2(m - 1), U32_MAX), Pow2(m - 1));
  }

  lemma AddGeometric(a: nat, q: nat, sum: nat, wait: nat)
    requires q >= 1 && sum <= a * (q - 1) && wait <= a * q
    ensures sum + wait <= a * (2 * q - 1)
  {
    assert a * (q - 1) + a * q == a * (2 * q - 1);
  }

  lemma AddLinear(n: nat, d: nat, sum: nat, wait: nat)
    requires sum <= n * d && wait <= d
    ensures sum + wait <= (n + 1) * d
  {
    assert n * d + d == (n + 1) * d;
  }
}
