/** Retry backoff (pkg/kncloudevents/retries.go): saturating int64 arithmetic and Retry-After. */
module Retries {
  import opened Wrappers
  import opened Text

  /** time.Duration in nanoseconds; every int64 result below is proved not to wrap unless Wrap64 says so. */
  newtype int64 = x: int | -0x8000_0000_0000_0000 <= x < 0x8000_0000_0000_0000

  const MAX_BACKOFF: int64 := 0x7fff_ffff_ffff_ffff
  const SECOND: int := 1_000_000_000

  function Min(a: int, b: int): int { if a <= b then a else b }
  function Max(a: int, b: int): int { if a >= b then a else b }

  function Pow2(n: nat): nat { if n == 0 then 1 else 2 * Pow2(n - 1) }

  function Limit(configuredMax: Option<int64>): int64 {
    if configuredMax.Some? then configuredMax.value else MAX_BACKOFF
  }

  /** min(limit, delay * (attempt + 1)) over unbounded integers, or 0 for a delay or attempt that is not usable. */
  function LinearSpec(delay: int, attempt: int, limit: int): int {
    if attempt < 0 || delay <= 0 then 0 else Min(limit, delay * (attempt + 1))
  }

  /** min(limit, delay * 2^attempt) over unbounded integers. */
  function ExponentialSpec(delay: int, attempt: int, limit: int): int {
    if attempt < 0 || delay <= 0 then 0 else Min(limit, delay * Pow2(attempt))
  }

  lemma QuotientBound(delay: int, attempt: int, limit: int)
    requires delay > 0 && attempt >= 0 && limit > 0
    ensures attempt >= limit / delay ==> delay * (attempt + 1) > limit
    ensures attempt < limit / delay ==> delay * (attempt + 1) <= limit
  {
    var q := limit / delay;
    assert limit == delay * q + limit % delay;
    if attempt >= q {
      assert delay * (attempt + 1) >= delay * (q + 1) == delay * q + delay;
    } else {
      assert delay * (attempt + 1) <= delay * q;
    }
  }

  lemma ProductAtLeast(delay: int, factor: int)
    requires delay > 0 && factor >= 1
    ensures delay * factor >= delay
  {
  }

  method LinearBackoff(delay: int64, attemptNum: int64, configuredMax: Option<int64>) returns (r: int64)
    ensures r as int == LinearSpec(delay as int, attemptNum as int, Limit(configuredMax) as int)
    ensures attemptNum < 0 || delay <= 0 ==> r == 0
    ensures attemptNum >= 0 && delay > 0 ==>
      var limit := if configuredMax.Some? then configuredMax.value else 0x7fff_ffff_ffff_ffff;
      var product := delay as int * (attemptNum as int + 1);
      r as int == if product <= limit as int then product else limit as int
  {
    if attemptNum < 0 || delay <= 0 {
      return 0;
    }
    var limit := Limit(configuredMax);
    if delay >= limit {
      ProductAtLeast(delay as int, attemptNum as int + 1);
      return limit;
    }
    QuotientBound(delay as int, attemptNum as int, limit as int);
    if attemptNum >= limit / delay {
      return limit;
    }
    ProductAtLeast(delay as int, attemptNum as int + 1);
    r := delay * (attemptNum + 1);
  }

  method ExponentialBackoff(delay: int64, attemptNum: int64, configuredMax: Option<int64>) returns (r: int64)
    ensures r as int == ExponentialSpec(delay as int, attemptNum as int, Limit(configuredMax) as int)
    ensures attemptNum < 0 || delay <= 0 ==> r == 0
    ensures attemptNum == 0 && delay > 0 ==>
      r == if configuredMax.Some? && configuredMax.value < delay then configuredMax.value else delay
  {
    if attemptNum < 0 || delay <= 0 {
      return 0;
    }
    var limit := Limit(configuredMax);
    Pow2Monotone(0, attemptNum as int);
    if delay >= limit {
      ProductAtLeast(delay as int, Pow2(attemptNum as int));
      return limit;
    }
    var result := delay;
    var i: int64 := 0;
    while i < attemptNum
      invariant 0 <= i <= attemptNum
      invariant delay <= result <= limit && result as int == delay as int * Pow2(i as int)
    {
      if result > limit / 2 {
        Pow2Monotone(i as int + 1, attemptNum as int);
        ScaleMonotone(delay as int, Pow2(i as int + 1), Pow2(attemptNum as int));
        assert delay as int * Pow2(i as int + 1) == 2 * result as int;
        return limit;
      }
      assert delay as int * Pow2(i as int + 1) == 2 * result as int;
      result := result * 2;
      i := i + 1;
    }
    r := result;
  }

  lemma {:induction false} Pow2Monotone(m: nat, n: nat)
    requires m <= n
    ensures 1 <= Pow2(m) <= Pow2(n)
    decreases n
  {
    if m < n {
      Pow2Monotone(m, n - 1);
    } else if m > 0 {
      Pow2Monotone(m - 1, m - 1);
    }
  }

  lemma ScaleMonotone(d: int, a: int, b: int)
    requires d >= 0 && a <= b
    ensures d * a <= d * b
  {
  }

  /** Neither backoff ever shrinks from one attempt to a later one, and neither exceeds a positive limit. */
  lemma BackoffMonotone(delay: int, m: nat, n: nat, limit: int)
    requires m <= n && limit >= 0
    ensures LinearSpec(delay, m, limit) <= LinearSpec(delay, n, limit) <= limit
    ensures ExponentialSpec(delay, m, limit) <= ExponentialSpec(delay, n, limit) <= limit
  {
    if delay > 0 {
      ScaleMonotone(delay, m + 1, n + 1);
      Pow2Monotone(m, n);
      ScaleMonotone(delay, Pow2(m), Pow2(n));
    }
  }

  /** From one attempt to the next the exponential backoff doubles, up to the limit. */
  lemma ExponentialDoubles(delay: int, n: nat, limit: int)
    requires delay > 0 && limit >= 0
    ensures ExponentialSpec(delay, 0, limit) == if delay <= limit then delay else limit
    ensures
      var now, next := ExponentialSpec(delay, n, limit), ExponentialSpec(delay, n + 1, limit);
      next == if 2 * now <= limit then 2 * now else limit
  {
    assert delay * Pow2(n + 1) == 2 * (delay * Pow2(n));
    Pow2Monotone(0, n);
    ScaleMonotone(delay, 1, Pow2(n));
  }

  // ---------- Retry-After ----------

  function Wrap64(x: int): int64 {
    ((x + 0x8000_0000_0000_0000) % 0x1_0000_0000_0000_0000 - 0x8000_0000_0000_0000) as int64
  }

  /** A response: its status, its Retry-After header ("" if none), and that header read as a date. */
  datatype Response = Response(status: int, retryAfter: Bytes, untilDate: Option<int64>)

  /** parseRetryAfterDuration: seconds are multiplied in int64 and may wrap; the date form is an oracle. */
  function RetryAfter(resp: Response): int64 {
    if resp.retryAfter == [] then 0
    else match ParseInt(resp.retryAfter, 0x8000_0000_0000_0000)
         case Some(seconds) => Wrap64(seconds * SECOND)
         case None => if resp.untilDate.Some? then resp.untilDate.value else 0
  }

  predicate IsThrottled(resp: Option<Response>) { resp.Some? && resp.value.status in {429, 503} }

  /** The function generateBackoffFn returns, for a backoff already computed for this attempt. */
  method GeneratedBackoff(retryAfterMax: Option<int64>, resp: Option<Response>, backoff: int64) returns (wait: int64)
    ensures wait as int == Wait(retryAfterMax, resp, backoff) as int
  {
    var retryAfter: int64 := 0;
    if retryAfterMax.Some? {
      if resp.Some? && (resp.value.status == 429 || resp.value.status == 503) {
        retryAfter := RetryAfter(resp.value);
        if retryAfterMax.value < retryAfter {
          retryAfter := retryAfterMax.value;
        }
      }
    }
    wait := if retryAfter > backoff then retryAfter else backoff;
  }

  function Wait(retryAfterMax: Option<int64>, resp: Option<Response>, backoff: int64): int64 {
    var asked: int :=
      if retryAfterMax.Some? && IsThrottled(resp)
      then Min(retryAfterMax.value as int, RetryAfter(resp.value) as int)
      else 0;
    Max(asked, backoff as int) as int64
  }

  /** The wait is at least the backoff and at most the larger of it and the configured maximum. */
  lemma WaitBounds(retryAfterMax: Option<int64>, resp: Option<Response>, backoff: int64)
    requires backoff >= 0
    ensures backoff <= Wait(retryAfterMax, resp, backoff)
    ensures retryAfterMax.None? ==> Wait(retryAfterMax, resp, backoff) == backoff
    ensures resp.None? || resp.value.status !in {429, 503} ==> Wait(retryAfterMax, resp, backoff) == backoff
    ensures retryAfterMax.Some? && resp.Some? && resp.value.status in {429, 503} ==>
      Wait(retryAfterMax, resp, backoff) as int
      == Max(backoff as int, Min(retryAfterMax.value as int, RetryAfter(resp.value) as int))
    ensures retryAfterMax.Some? ==>
      Wait(retryAfterMax, resp, backoff) as int <= Max(backoff as int, retryAfterMax.value as int)
  {
  }

  /** A missing or unreadable header asks for nothing; one that is a date asks for the time until then. */
  lemma OtherRetryAfter(resp: Response, max: int64, backoff: int64)
    requires resp.status in {429, 503} && backoff >= 0
    ensures resp.retryAfter == [] ==> Wait(Some(max), Some(resp), backoff) == backoff
    ensures resp.retryAfter != [] && ParseInt(resp.retryAfter, 0x8000_0000_0000_0000).None? ==>
      Wait(Some(max), Some(resp), backoff) as int
      == match resp.untilDate
         case None => backoff as int
         case Some(until) => Max(backoff as int, Min(max as int, until as int))
  {
  }

  lemma Wrap64Exact(x: int)
    ensures Wrap64(x) as int == x <==> -0x8000_0000_0000_0000 <= x < 0x8000_0000_0000_0000
  {
  }

  /**
    A Retry-After of `seconds` is honoured, up to the maximum, when it is below 2^63 nanoseconds;
    a larger one wraps, and the wrapped value is used instead.
   */
  lemma SecondsHonoured(seconds: nat, status: int, max: int64, backoff: int64)
    requires status in {429, 503} && backoff >= 0 && seconds < 0x8000_0000_0000_0000
    ensures
      var resp := Response(status, PrintInt(seconds), None);
      && RetryAfter(resp) == Wrap64(seconds * SECOND)
      && (RetryAfter(resp) as int == seconds * SECOND <==> seconds <= 9_223_372_036)
      && (seconds <= 9_223_372_036 ==>
            Wait(Some(max), Some(resp), backoff) as int == Max(backoff as int, Min(max as int, seconds * SECOND)))
  {
    ParsePrintInt(seconds, 0x8000_0000_0000_0000);
    ParsePrintNat(seconds);
    Wrap64Exact(seconds * SECOND);
  }

  /** For about as long again past that point the product wraps to a negative duration, and is ignored. */
  lemma WrappedRetryAfterIgnored(seconds: nat, status: int, max: int64, backoff: int64)
    requires status in {429, 503} && backoff >= 0 && 9_223_372_036 < seconds <= 18_446_744_073
    ensures Wait(Some(max), Some(Response(status, PrintInt(seconds), None)), backoff) == backoff
  {
    ParsePrintInt(seconds, 0x8000_0000_0000_0000);
    ParsePrintNat(seconds);
    assert Wrap64(seconds * SECOND) as int == seconds * SECOND - 0x1_0000_0000_0000_0000;
  }
}
