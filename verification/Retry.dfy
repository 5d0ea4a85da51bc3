/** Retry with exponential backoff in vault-inject. */
module Retry {
  import opened Strings

  datatype Attempt = Success | Error(text: string)

  /** An HTTP 4xx answer is final; everything else may be tried again. */
  predicate Retryable(a: Attempt)
  {
    a.Error? && !Contains(a.text, "HTTP 4")
  }

  /** The error's text has `HTTP 4` in it. */
  ghost predicate SaysHttp4(text: string)
  {
    exists before, after :: text == before + "HTTP 4" + after
  }

  lemma RetryableExactly(a: Attempt)
    ensures Retryable(a) <==> a.Error? && !SaysHttp4(a.text)
  {
    if a.Error? {
      ContainsExactly(a.text, "HTTP 4");
    }
  }

  function Pow2(n: nat): (r: nat)
    ensures r >= 1
  {
    if n == 0 then 1 else 2 * Pow2(n - 1)
  }

  const TWO_63 := 0x8000_0000_0000_0000
  const TWO_64 := 0x1_0000_0000_0000_0000

  /** A signed 64-bit value after wrap-around. */
  function Wrap64(x: int): (r: int)
    ensures -TWO_63 <= r < TWO_63
    ensures -TWO_63 <= x < TWO_63 ==> r == x
    ensures (x - r) % TWO_64 == 0
  {
    (x + TWO_63) % TWO_64 - TWO_63
  }

  /** `base` shifted left by `i` bits in 64 bits. */
  function ShiftLeft(base: int, i: nat): int
  {
    Wrap64(base * Pow2(i))
  }

  /** The time `n` pauses take; a negative pause takes none. */
  function TotalSleep(base: int, n: nat): int
  {
    if n == 0 then 0
    else TotalSleep(base, n - 1) + (if ShiftLeft(base, n - 1) < 0 then 0 else ShiftLeft(base, n - 1))
  }

  /**
   Calls `fn` until it succeeds, fails for good, or has been called `maxAttempts` times;
   call number n gets the answer fn(n). `slept` is the time spent in pauses, of which there
   is one between any two calls and none after the last.
   */
  method WithRetry(maxAttempts: int, base: int, fn: nat -> Attempt) returns (r: Attempt, calls: nat, slept: int)
    ensures maxAttempts <= 0 ==> calls == 0 && r == Success && slept == 0
    ensures maxAttempts >= 1 ==> 1 <= calls <= maxAttempts && r == fn(calls - 1) && slept == TotalSleep(base, calls - 1)
    ensures maxAttempts >= 1 && calls < maxAttempts ==> r.Success? || SaysHttp4(r.text)
    ensures forall i :: 0 <= i < calls - 1 ==> fn(i).Error? && !SaysHttp4(fn(i).text)
  {
    hide SaysHttp4, Contains;
    r, calls, slept := Success, 0, 0;
    var i := 0;
    while i < maxAttempts
      invariant 0 <= i && calls == i && (maxAttempts >= 0 ==> i <= maxAttempts) && (maxAttempts < 0 ==> i == 0)
      invariant i == 0 ==> r == Success && slept == 0
      invariant i > 0 ==> r == fn(i - 1)
      invariant forall j :: 0 <= j < i ==> fn(j).Error? && !SaysHttp4(fn(j).text)
      invariant i > 0 ==> slept == TotalSleep(base, if i == maxAttempts then i - 1 else i)
    {
      r := fn(i);
      calls := calls + 1;
      RetryableExactly(r);
      if !Retryable(r) {
        return;
      }
      if i < maxAttempts - 1 {
        var pause := ShiftLeft(base, i);
        slept := slept + (if pause < 0 then 0 else pause);
      }
      i := i + 1;
    }
  }

  lemma DoublingStep(base: int, n: nat)
    requires base >= 0 && n >= 1
    ensures base * (Pow2(n) - 1) == base * (Pow2(n - 1) - 1) + base * Pow2(n - 1)
    ensures n >= 2 ==> base * Pow2(n - 2) <= base * Pow2(n - 1)
  {
  }

  /**
   After k calls the pauses add up to base * (2^(k-1) - 1) exactly when the longest of them
   fits in 64 bits, and to less otherwise.
   */
  lemma {:induction false} TotalSleepExactly(base: int, n: nat)
    requires base >= 0
    ensures 0 <= TotalSleep(base, n) <= base * (Pow2(n) - 1)
    ensures TotalSleep(base, n) == base * (Pow2(n) - 1) <==> n == 0 || base * Pow2(n - 1) < TWO_63
  {
    if n > 0 {
      TotalSleepExactly(base, n - 1);
      DoublingStep(base, n);
      assert base * Pow2(n - 1) >= 0;
    }
  }
}
