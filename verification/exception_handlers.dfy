/**
 * `ExceptionHandlers`: the retry policy a pusher consults after a failed
 * delivery attempt. A handler is told the exception and how many tries have
 * been made so far; it either asks for a sleep followed by another try, or
 * gives up. The sleep itself is not performed here: the decision carries the
 * requested duration instead.
 */
module ExceptionHandlers {
  import opened Jdk

  /** `java.util.concurrent.TimeUnit`. */
  datatype TimeUnit = Nanoseconds | Microseconds | Milliseconds | Seconds | Minutes | Hours | Days

  /**
   * `ExponentialBackoffExceptionHandler`: three final fields. Despite the name,
   * the sleep grows linearly with the number of tries.
   */
  datatype ExceptionHandler = ExponentialBackoff(maximumTries: Int32, sleepDuration: Int64, sleepUnit: TimeUnit)

  /**
   * What `handleException` does: sleep for `sleep` units and return true, or
   * return false without sleeping.
   */
  datatype Decision = Retry(sleep: Int64, unit: TimeUnit) | GiveUp

  /** `exponentialBackoffHandler(maximumTries, initialSleepDuration, initialSleepUnit)`: a null unit is refused. */
  function ExponentialBackoffHandler(maximumTries: Int32, initialSleepDuration: Int64, initialSleepUnit: Option<TimeUnit>)
    : (r: Result<ExceptionHandler>)
    ensures initialSleepUnit.None? <==> r == Failure(NullPointer)
    ensures r.Success? ==>
      && r.value.maximumTries == maximumTries
      && r.value.sleepDuration == initialSleepDuration
      && Some(r.value.sleepUnit) == initialSleepUnit
  {
    match initialSleepUnit
    case None => Failure(NullPointer)
    case Some(unit) => Success(ExponentialBackoff(maximumTries, initialSleepDuration, unit))
  }

  /** `defaultHandler()`: the handler the factory makes for 12 tries, 5 seconds. */
  function DefaultHandler(): (h: ExceptionHandler)
    ensures ExponentialBackoffHandler(12, 5, Some(Seconds)) == Success(h)
  {
    ExponentialBackoff(12, 5, Seconds)
  }

  /**
   * `handleException(ex, ntries)`: give up once more than `maximumTries` tries
   * have been made; otherwise ask for `sleepDuration * ntries` units of sleep,
   * computed in `long` arithmetic.
   */
  function HandleException(h: ExceptionHandler, ex: Exception, ntries: Int32): (d: Decision)
    ensures d.GiveUp? <==> ntries > h.maximumTries
    ensures d.Retry? ==> d.unit == h.sleepUnit
    ensures d.Retry? ==> (d.sleep as int - h.sleepDuration as int * ntries as int) % 0x1_0000_0000_0000_0000 == 0
  {
    if ntries > h.maximumTries then GiveUp
    else Retry(WrapInt64(h.sleepDuration as int * ntries as int), h.sleepUnit)
  }

  /** `handleException`'s boolean result. */
  predicate Handled(d: Decision)
  {
    d.Retry?
  }

  /** The sleep a decision asks for, as a mathematical integer; none on giving up. */
  function RequestedSleep(d: Decision): int
  {
    match d
    case Retry(sleep, _) => sleep as int
    case GiveUp => 0
  }

  /** The sleep requested over tries 1 to `n`, each reported to the same handler. */
  function TotalSleep(h: ExceptionHandler, ex: Exception, n: nat): int
    requires n < 0x8000_0000
  {
    if n == 0 then 0 else TotalSleep(h, ex, n - 1) + RequestedSleep(HandleException(h, ex, n as Int32))
  }

  /** Multiplying by `d` keeps or reverses the order of two numbers, by the sign of `d`. */
  lemma MulMonotone(d: int, a: int, b: int)
    requires a <= b
    ensures d >= 0 ==> d * a <= d * b
    ensures d < 0 ==> d * b <= d * a
  {
    var e := b - a;
    assert d * b == d * a + d * e;
    if d >= 0 {
      assert d * e >= 0;
    } else {
      assert d * e <= 0;
    }
  }

  /** `d * k` lies between `d` and `d * m` when `1 <= k <= m`, whatever the sign of `d`. */
  lemma ProductBetween(d: int, k: int, m: int)
    requires 1 <= k <= m
    ensures d >= 0 ==> d <= d * k <= d * m
    ensures d < 0 ==> d * m <= d * k <= d
  {
    MulMonotone(d, 1, k);
    MulMonotone(d, k, m);
  }

  /** The Java product `sleepDuration * k` does not overflow for any try up to `maximumTries`. */
  predicate NoOverflow(h: ExceptionHandler)
  {
    -0x8000_0000_0000_0000 <= h.sleepDuration as int * h.maximumTries as int < 0x8000_0000_0000_0000
  }

  /** Try `k`, for `1 <= k <= maximumTries`, is retried after exactly `sleepDuration * k` units. */
  lemma RetryAt(h: ExceptionHandler, ex: Exception, k: int)
    requires NoOverflow(h)
    requires 1 <= k <= h.maximumTries as int
    ensures var d := HandleException(h, ex, k as Int32);
      d.Retry? && d.unit == h.sleepUnit && d.sleep as int == h.sleepDuration as int * k
  {
    var p := h.sleepDuration as int * k;
    ProductBetween(h.sleepDuration as int, k, h.maximumTries as int);
    assert -0x8000_0000_0000_0000 <= p < 0x8000_0000_0000_0000;
    assert WrapInt64(p) as int == p;
  }

  /** One more term of the arithmetic series: `d(n-1)n + 2dn == dn(n+1)`. */
  lemma TriangleStep(d: int, n: int)
    ensures d * (n - 1) * n + 2 * (d * n) == d * n * (n + 1)
  {
    var p := d * n;
    assert d * (n - 1) * n == p * (n - 1);
    assert d * n * (n + 1) == p * (n + 1);
  }

  /**
   * The whole schedule: tries 1 to `n` are each retried after `sleepDuration`
   * times the try number, and together they ask for `sleepDuration * n(n+1)/2`.
   */
  lemma {:induction false} BackoffSchedule(h: ExceptionHandler, ex: Exception, n: nat)
    requires NoOverflow(h)
    requires n <= h.maximumTries as int
    ensures forall k: Int32 :: 1 <= k as int <= n ==>
      && HandleException(h, ex, k).Retry?
      && HandleException(h, ex, k).unit == h.sleepUnit
      && HandleException(h, ex, k).sleep as int == h.sleepDuration as int * k as int
    ensures 2 * TotalSleep(h, ex, n) == h.sleepDuration as int * n * (n + 1)
  {
    var d := h.sleepDuration as int;
    if n > 0 {
      BackoffSchedule(h, ex, n - 1);
      RetryAt(h, ex, n);
      var before := TotalSleep(h, ex, n - 1);
      assert TotalSleep(h, ex, n) == before + d * n;
      TriangleStep(d, n);
    }
    forall k: Int32 | 1 <= k as int <= n
      ensures HandleException(h, ex, k).Retry?
      ensures HandleException(h, ex, k).unit == h.sleepUnit
      ensures HandleException(h, ex, k).sleep as int == d * k as int
    {
      RetryAt(h, ex, k as int);
    }
  }

  /** Every try after the last allowed one is refused, and a refusal asks for no sleep. */
  lemma GivesUpAfterMaximum(h: ExceptionHandler, ex: Exception, ntries: Int32)
    requires ntries > h.maximumTries
    ensures HandleException(h, ex, ntries) == GiveUp
    ensures !Handled(HandleException(h, ex, ntries)) && RequestedSleep(HandleException(h, ex, ntries)) == 0
  {
  }

  /**
   * The default policy: tries 1 to 12 are retried after 5, 10, ..., 60 seconds,
   * 390 seconds in all, and try 13 is refused.
   */
  lemma DefaultSchedule(ex: Exception)
    ensures forall k: Int32 :: 1 <= k <= 12 ==> HandleException(DefaultHandler(), ex, k) == Retry(5 * k as Int64, Seconds)
    ensures HandleException(DefaultHandler(), ex, 13) == GiveUp
    ensures TotalSleep(DefaultHandler(), ex, 12) == 390
  {
    BackoffSchedule(DefaultHandler(), ex, 12);
  }

  /** The handler keeps no state and ignores the exception: the decision depends on the try count alone. */
  lemma DecisionIgnoresException(h: ExceptionHandler, ex1: Exception, ex2: Exception, ntries: Int32)
    ensures HandleException(h, ex1, ntries) == HandleException(h, ex2, ntries)
  {
  }
}
