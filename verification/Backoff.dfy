/** Exponential backoff. Durations are whole nanoseconds; the growing delay is a real number, cut to a
    duration at the end.
 */
module Backoff {

  const SECOND := 1_000_000_000

  datatype BackoffConfig = BackoffConfig(initial: int, max: int, factor: real, maxAttempts: int)

  const DEFAULT := BackoffConfig(SECOND, 30 * SECOND, 2.0, 8)

  function Truncate(d: real): int {
    if d >= 0.0 then d.Floor else -((-d).Floor)
  }

  /** A duration is cut toward zero. */
  lemma TruncatedTowardZero(d: real)
    ensures d >= 0.0 ==> 0.0 <= Truncate(d) as real <= d < Truncate(d) as real + 1.0
    ensures d <= 0.0 ==> Truncate(d) as real - 1.0 < d <= Truncate(d) as real <= 0.0
  {
  }

  function Scaled(b: BackoffConfig, d: real): real {
    d * b.factor
  }

  /** The delay after k more multiplications of d, capped as soon as it reaches the ceiling. */
  function Grown(b: BackoffConfig, d: real, k: nat): int
    decreases k
  {
    if k == 0 then if d > b.max as real then b.max else Truncate(d)
    else if Scaled(b, d) >= b.max as real then b.max
    else Grown(b, Scaled(b, d), k - 1)
  }

  /** The delay before retry `attempt`, counted from 0. */
  function Next(b: BackoffConfig, attempt: int): int {
    Grown(b, b.initial as real, if attempt > 0 then attempt else 0)
  }

  method NextDelay(b: BackoffConfig, attempt: int) returns (delay: int)
    ensures delay == Next(b, attempt)
  {
    var d := b.initial as real;
    var i := 0;
    while i < attempt
      invariant 0 <= i && (i <= attempt || i == 0)
      invariant Next(b, attempt) == Grown(b, d, if attempt > 0 then attempt - i else 0)
    {
      d := Scaled(b, d);
      if d >= b.max as real { return b.max; }
      i := i + 1;
    }
    if d > b.max as real { return b.max; }
    delay := Truncate(d);
  }

  /** What the first n sleeps take together. */
  function Slept(b: BackoffConfig, n: int): int {
    if n <= 0 then 0 else Slept(b, n - 1) + Next(b, n - 1)
  }

  /** The time the config spends waiting once every attempt is used up. */
  function Budget(b: BackoffConfig): int {
    Slept(b, b.maxAttempts - 1)
  }

  method ComputeBudget(b: BackoffConfig) returns (total: int)
    ensures total == Budget(b)
  {
    total := 0;
    var i := 0;
    while i < b.maxAttempts - 1
      invariant 0 <= i && (i <= b.maxAttempts - 1 || i == 0)
      invariant total == Slept(b, i)
    {
      var d := NextDelay(b, i);
      total := total + d;
      i := i + 1;
    }
  }

  /** The delay doubles from one second up to its ceiling of thirty. */
  lemma DefaultDelays(attempt: nat)
    ensures Next(DEFAULT, attempt) ==
      if attempt == 0 then SECOND else if attempt == 1 then 2 * SECOND else if attempt == 2 then 4 * SECOND
      else if attempt == 3 then 8 * SECOND else if attempt == 4 then 16 * SECOND else 30 * SECOND
  {
    var s := SECOND as real;
    GrownOnce(s, attempt);
    if attempt >= 1 { GrownOnce(2.0 * s, attempt - 1); }
    if attempt >= 2 { GrownOnce(4.0 * s, attempt - 2); }
    if attempt >= 3 { GrownOnce(8.0 * s, attempt - 3); }
    if attempt >= 4 { GrownOnce(16.0 * s, attempt - 4); }
  }

  lemma GrownOnce(d: real, k: nat)
    ensures Grown(DEFAULT, d, k) ==
      if k == 0 then if d > DEFAULT.max as real then DEFAULT.max else Truncate(d)
      else if 2.0 * d >= DEFAULT.max as real then DEFAULT.max else Grown(DEFAULT, 2.0 * d, k - 1)
  {
    assert Scaled(DEFAULT, d) == 2.0 * d;
  }

  /** The delay multiplied k times. */
  function Times(b: BackoffConfig, d: real, k: nat): real {
    if k == 0 then d else Scaled(b, Times(b, d, k - 1))
  }

  /** The delay has come to the ceiling by retry k: at one of the multiplications, or past it without any. */
  ghost predicate Capped(b: BackoffConfig, d: real, k: nat) {
    (exists j: nat :: 0 < j <= k && Times(b, d, j) >= b.max as real) || (k == 0 && d > b.max as real)
  }

  lemma {:induction false} TimesNext(b: BackoffConfig, d: real, j: nat)
    ensures Times(b, d, j + 1) == Times(b, Scaled(b, d), j)
  {
    if j > 0 { TimesNext(b, d, j - 1); }
  }

  lemma CappedNext(b: BackoffConfig, d: real, k: nat)
    requires k > 0
    ensures Capped(b, d, k) || Scaled(b, d) >= b.max as real
      <==> Scaled(b, d) >= b.max as real || Capped(b, Scaled(b, d), k - 1)
    ensures Scaled(b, d) >= b.max as real ==> Capped(b, d, k)
  {
    var e := Scaled(b, d);
    TimesNext(b, d, 0);
    if j: nat :| 0 < j <= k && Times(b, d, j) >= b.max as real && j > 1 {
      TimesNext(b, d, j - 1);
      assert Times(b, e, j - 1) >= b.max as real;
    }
    if j: nat :| 0 < j <= k - 1 && Times(b, e, j) >= b.max as real {
      TimesNext(b, d, j);
      assert Times(b, d, j + 1) >= b.max as real;
    }
  }

  /** In closed form: the first delay times the factor to the number of retries, cut to a duration, and the
      ceiling from the retry on at which it is reached. */
  lemma {:induction false} DelayIsPower(b: BackoffConfig, d: real, k: nat)
    ensures Grown(b, d, k) == if Capped(b, d, k) then b.max else Truncate(Times(b, d, k))
    decreases k
  {
    if k > 0 {
      CappedNext(b, d, k);
      TimesNext(b, d, k - 1);
      if Scaled(b, d) < b.max as real { DelayIsPower(b, Scaled(b, d), k - 1); }
    }
  }

  /** The default config waits one, two, four, eight, sixteen, thirty and thirty seconds. */
  lemma DefaultBudget()
    ensures Budget(DEFAULT) == 91 * SECOND
  {
    forall i: nat ensures Slept(DEFAULT, i + 1) == Slept(DEFAULT, i) + Next(DEFAULT, i) {}
    forall i: nat | i < 7 ensures Slept(DEFAULT, i) + Next(DEFAULT, i) == Slept(DEFAULT, i + 1) { DefaultDelays(i); }
    DefaultDelays(0); DefaultDelays(1); DefaultDelays(2); DefaultDelays(3);
    DefaultDelays(4); DefaultDelays(5); DefaultDelays(6);
    assert Slept(DEFAULT, 0) == 0;
    assert Slept(DEFAULT, 3) == 7 * SECOND;
    assert Slept(DEFAULT, 5) == 31 * SECOND;
  }

  /** The default shape with the attempts a budget needs. */
  method WaitBackoffFor(budget: int) returns (cfg: BackoffConfig)
    ensures cfg == DEFAULT.(maxAttempts := cfg.maxAttempts) && cfg.maxAttempts >= 1
    ensures Budget(cfg) >= budget
    ensures budget > 0 ==> Budget(cfg.(maxAttempts := cfg.maxAttempts - 1)) < budget
    ensures budget <= 0 ==> cfg.maxAttempts == 1
  {
    var attempts, spent := 1, 0;
    while spent < budget
      invariant attempts >= 1 && spent == Slept(DEFAULT, attempts - 1)
      invariant attempts > 1 ==> Slept(DEFAULT, attempts - 2) < budget
      invariant budget <= 0 ==> attempts == 1
      decreases budget - spent
    {
      DefaultDelays(attempts - 1);
      var d := NextDelay(DEFAULT, attempts - 1);
      spent := spent + d;
      attempts := attempts + 1;
    }
    cfg := DEFAULT.(maxAttempts := attempts);
    AttemptsDoNotDelay(DEFAULT, attempts, attempts - 1);
    AttemptsDoNotDelay(DEFAULT, attempts - 1, attempts - 2);
  }

  /** The number of attempts allowed does not change the delays themselves. */
  lemma {:induction false} AttemptsDoNotDelay(b: BackoffConfig, attempts: int, n: int)
    ensures Slept(b.(maxAttempts := attempts), n) == Slept(b, n)
  {
    if n > 0 {
      AttemptsDoNotDelay(b, attempts, n - 1);
      GrownIgnoresAttempts(b, attempts, b.initial as real, n - 1);
    }
  }

  lemma {:induction false} GrownIgnoresAttempts(b: BackoffConfig, attempts: int, d: real, k: nat)
    ensures Grown(b.(maxAttempts := attempts), d, k) == Grown(b, d, k)
    decreases k
  {
    assert Scaled(b.(maxAttempts := attempts), d) == Scaled(b, d);
    if k > 0 { GrownIgnoresAttempts(b, attempts, Scaled(b, d), k - 1); }
  }

  /** No delay passes the ceiling, and none is negative. */
  lemma {:induction false} DelayWithinCeiling(b: BackoffConfig, d: real, k: nat)
    requires b.max >= 0 && d >= 0.0 && b.factor >= 0.0
    ensures 0 <= Grown(b, d, k) <= b.max
    decreases k
  {
    if k > 0 {
      assert Scaled(b, d) >= 0.0;
      if Scaled(b, d) < b.max as real { DelayWithinCeiling(b, Scaled(b, d), k - 1); }
    }
  }
}
