/** The delay utility of the scheduler schema, in 32-bit arithmetic. */
module Backoff {

  const I32_MAX := 0x7FFF_FFFF

  predicate IsI32(x: int) { -I32_MAX - 1 <= x <= I32_MAX }

  function Min(a: int, b: int): int { if a < b then a else b }

  function Power(n: nat): (p: int)
    ensures p >= 1
  {
    if n == 0 then 1 else 2 * Power(n - 1)
  }

  /** The exponent after the clamp and the cast to an unsigned 32-bit number. */
  function Exponent(attempts: int): nat
    requires IsI32(attempts)
  {
    var clamped := Min(attempts, 30);
    if clamped >= 0 then clamped else clamped + 0x1_0000_0000
  }

  function Base(attempts: int, cap: int): int
    requires IsI32(attempts)
  {
    Min(Power(Exponent(attempts)), cap)
  }

  /** A draw the generator may return: none is made for a base that is not positive. */
  predicate IsDraw(attempts: int, cap: int, jitter: int)
    requires IsI32(attempts)
  {
    if Base(attempts, cap) > 0 then 0 <= jitter < Base(attempts, cap) else jitter == 0
  }

  function BackoffSeconds(attempts: int, cap: int, jitter: int): int
    requires IsI32(attempts)
  {
    Min(Base(attempts, cap) + jitter, cap)
  }

  /** Every intermediate value fits its 32-bit type. */
  predicate NoOverflow(attempts: int, cap: int, jitter: int)
    requires IsI32(attempts)
  {
    IsI32(Power(Exponent(attempts))) && IsI32(Base(attempts, cap) + jitter)
  }

  lemma {:induction false} PowerMonotone(m: nat, n: nat)
    requires m < n
    ensures 2 * Power(m) <= Power(n)
  {
    if m < n - 1 {
      PowerMonotone(m, n - 1);
    }
  }

  lemma PowerThirty()
    ensures Power(30) == 0x4000_0000
  {
    assert Power(5) == 32;
    assert Power(10) == 32 * Power(5);
    assert Power(15) == 32 * Power(10);
    assert Power(20) == 32 * Power(15);
    assert Power(25) == 32 * Power(20);
    assert Power(30) == 32 * Power(25);
  }

  lemma PowerFitsIff(n: nat)
    ensures IsI32(Power(n)) <==> n <= 30
    ensures n <= 30 ==> Power(n) <= 0x4000_0000
  {
    PowerThirty();
    if n < 30 {
      PowerMonotone(n, 30);
    } else if 30 < n {
      PowerMonotone(30, n);
    }
  }

  /** No draw overflows exactly when the attempt count is not negative; the worst sum is the
      largest 32-bit value. */
  lemma NeverOverflowsIff(attempts: int, cap: int)
    requires IsI32(attempts) && IsI32(cap)
    ensures (forall jitter | IsDraw(attempts, cap, jitter) :: NoOverflow(attempts, cap, jitter)) <==> attempts >= 0
    ensures attempts >= 30 && cap == I32_MAX ==>
            IsDraw(attempts, cap, 0x3FFF_FFFF) && Base(attempts, cap) + 0x3FFF_FFFF == I32_MAX
  {
    PowerThirty();
    PowerFitsIff(Exponent(attempts));
    if attempts < 0 {
      var jitter := 0;
      assert IsDraw(attempts, cap, jitter) && !NoOverflow(attempts, cap, jitter);
    }
  }

  /** For a positive cap the delay lies between min(2^attempts, cap) and the cap. */
  lemma DelayBounds(attempts: int, cap: int, jitter: int)
    requires IsI32(attempts) && attempts >= 0 && cap > 0 && IsDraw(attempts, cap, jitter)
    ensures Min(Power(Min(attempts, 30)), cap) <= BackoffSeconds(attempts, cap, jitter) <= cap
    ensures BackoffSeconds(0, cap, 0) == 1
  {}

  /** For a positive cap the possible delays are those from the capped power on that stay below
      twice it and do not exceed the cap. */
  lemma DelayIff(attempts: int, cap: int, delay: int)
    requires 0 <= attempts && IsI32(attempts) && cap > 0
    ensures var least := Min(Power(Min(attempts, 30)), cap);
            (exists jitter :: IsDraw(attempts, cap, jitter) && BackoffSeconds(attempts, cap, jitter) == delay) <==>
            least <= delay <= cap && delay < 2 * least
  {
    var least := Min(Power(Min(attempts, 30)), cap);
    if least <= delay <= cap && delay < 2 * least {
      assert IsDraw(attempts, cap, delay - least);
    }
  }

  lemma LaterIsLonger(a: int, b: int, cap: int, first: int, second: int)
    requires 0 <= a < b && a < 30 && IsI32(b) && IsI32(cap)
    requires IsDraw(a, cap, first) && IsDraw(b, cap, second)
    ensures BackoffSeconds(a, cap, first) <= BackoffSeconds(b, cap, second)
  {
    PowerMonotone(a, Exponent(b));
  }

  /** Whatever the cap and the two draws, a later attempt never waits less, exactly when the
      earlier one is below the clamp at 30. */
  lemma MonotoneIff(a: int, b: int)
    requires 0 <= a < b && IsI32(b)
    ensures (forall cap, first, second | IsI32(cap) && IsDraw(a, cap, first) && IsDraw(b, cap, second) ::
               BackoffSeconds(a, cap, first) <= BackoffSeconds(b, cap, second)) <==> a < 30
  {
    if a < 30 {
      forall cap, first, second | IsI32(cap) && IsDraw(a, cap, first) && IsDraw(b, cap, second)
        ensures BackoffSeconds(a, cap, first) <= BackoffSeconds(b, cap, second)
      {
        LaterIsLonger(a, b, cap, first, second);
      }
    } else {
      PowerThirty();
      assert IsDraw(a, I32_MAX, 1) && IsDraw(b, I32_MAX, 0);
      assert BackoffSeconds(a, I32_MAX, 1) > BackoffSeconds(b, I32_MAX, 0);
    }
  }
}
