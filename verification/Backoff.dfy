/** Exponential backoff with 64-bit delays, and the saturating total of its waits. */
module Backoff {
  import opened Common

  const MAX_INT64: int := 0x7fff_ffff_ffff_ffff
  const HALF: int := 0x4000_0000_0000_0000

  /** 64-bit two's complement. */
  function Wrap64(x: int): int {
    (x + 0x8000_0000_0000_0000) % 0x1_0000_0000_0000_0000 - 0x8000_0000_0000_0000
  }

  function Pow2(n: nat): (p: nat)
    ensures p > 0
  {
    if n == 0 then 1 else 2 * Pow2(n - 1)
  }

  // ---------- the delays of a backoff ----------

  /** The delay of a retry: doubled from one to the next for as long as that fits. */
  function Delay(initial: int, retry: nat): int {
    if retry == 0 then initial
    else
      var d := Delay(initial, retry - 1);
      if d < HALF then Wrap64(d * 2) else d
  }

  /** The time spent waiting over a number of retries. */
  function TotalDelay(initial: int, steps: nat): int {
    if steps == 0 then 0 else TotalDelay(initial, steps - 1) + Delay(initial, steps - 1)
  }

  lemma Doubled(x: int)
    requires 0 < x <= MAX_INT64
    ensures x < HALF ==> Wrap64(2 * x) == Wrap64(x * 2) == 2 * x
    ensures x >= HALF ==> Wrap64(2 * x) == Wrap64(x * 2) < 0
  {
  }

  lemma {:induction false} DelayDoubles(initial: int, retry: nat)
    requires 0 < initial <= MAX_INT64
    ensures 0 < Delay(initial, retry) <= MAX_INT64
    ensures initial * Pow2(retry) <= MAX_INT64 ==> Delay(initial, retry) == initial * Pow2(retry)
    ensures initial * Pow2(retry) > MAX_INT64 ==>
              Delay(initial, retry) >= HALF && retry > 0 && Delay(initial, retry) == Delay(initial, retry - 1)
    ensures initial <= initial * Pow2(retry)
  {
    if retry > 0 {
      DelayDoubles(initial, retry - 1);
      Doubled(Delay(initial, retry - 1));
      Times(initial, Pow2(retry - 1));
      hide Wrap64;
    }
  }

  lemma Times(x: int, y: int)
    ensures x * (2 * y) == 2 * (x * y)
  {
  }

  /** The total is initial * (2^steps - 1) for as long as that fits, and does not fit either where that does not. */
  lemma {:induction false} TotalIs(initial: int, steps: nat)
    requires 0 < initial <= MAX_INT64
    ensures initial * Pow2(steps) - initial <= MAX_INT64 ==> TotalDelay(initial, steps) == initial * Pow2(steps) - initial
    ensures initial * Pow2(steps) - initial > MAX_INT64 ==> TotalDelay(initial, steps) > MAX_INT64
    ensures TotalDelay(initial, steps) >= 0
    ensures initial * Pow2(steps) > MAX_INT64 && steps > 0 ==> TotalDelay(initial, steps) >= HALF
    decreases steps
  {
    if steps > 0 {
      TotalIs(initial, steps - 1);
      DelayDoubles(initial, steps - 1);
      Times(initial, Pow2(steps - 1));
      hide Delay, Wrap64;
    }
  }

  lemma TotalGrows(initial: int, n: nat, steps: nat)
    requires 0 < initial <= MAX_INT64 && n <= steps
    ensures TotalDelay(initial, n) <= TotalDelay(initial, steps)
    decreases steps
  {
    if n < steps {
      TotalGrows(initial, n, steps - 1);
      DelayDoubles(initial, steps - 1);
    }
  }

  // ---------- the configuration ----------

  /** The total a configuration can wait. The sums are taken in 64 bits, and overflow is seen by its sign. */
  method TotalTimeout(initialDelay: int, steps: int) returns (total: int)
    requires initialDelay <= MAX_INT64
    ensures initialDelay <= 0 || steps <= 0 ==> total == 0
    ensures initialDelay > 0 && steps > 0 ==> total == Min(initialDelay * Pow2(steps) - initialDelay, MAX_INT64)
    ensures initialDelay > 0 && steps > 0 ==> total == Min(TotalDelay(initialDelay, steps), MAX_INT64)
  {
    if initialDelay <= 0 || steps <= 0 {
      return 0;
    }
    TotalIs(initialDelay, steps);
    var delay := initialDelay;
    total := 0;
    for i := 0 to steps
      invariant total == TotalDelay(initialDelay, i) <= MAX_INT64
      invariant 0 < delay <= MAX_INT64
      invariant delay == Delay(initialDelay, i) || (delay == MAX_INT64 && total >= HALF && Delay(initialDelay, i) >= HALF)
    {
      hide Wrap64, Delay, Pow2;
      DelayDoubles(initialDelay, i);
      Added(total, delay);
      TotalGrows(initialDelay, i + 1, steps);
      total := Wrap64(total + delay);
      if total < 0 {
        return MAX_INT64;
      }
      Doubled(delay);
      NextDelay(initialDelay, i);
      delay := Wrap64(delay * 2);
      if delay < 0 {
        delay := MAX_INT64;
      }
    }
  }

  lemma Added(x: int, y: int)
    requires 0 <= x <= MAX_INT64 && 0 <= y <= MAX_INT64
    ensures x + y <= MAX_INT64 ==> Wrap64(x + y) == x + y
    ensures x + y > MAX_INT64 ==> Wrap64(x + y) < 0
  {
  }

  lemma NextDelay(initial: int, i: nat)
    requires 0 < initial <= MAX_INT64
    ensures Delay(initial, i + 1) == if Delay(initial, i) < HALF then Wrap64(Delay(initial, i) * 2) else Delay(initial, i)
    ensures 0 < Delay(initial, i) && TotalDelay(initial, i + 1) == TotalDelay(initial, i) + Delay(initial, i)
  {
    DelayDoubles(initial, i);
  }

  /** The total timeout is what the backoff waits if and only if initial * (2^steps - 1) fits in 64 bits. */
  lemma TimeoutIsTotalIff(initial: int, steps: nat)
    requires 0 < initial <= MAX_INT64
    ensures Min(initial * Pow2(steps) - initial, MAX_INT64) == TotalDelay(initial, steps)
            <==> initial * Pow2(steps) - initial <= MAX_INT64
  {
    TotalIs(initial, steps);
  }

  // ---------- the backoff ----------

  const DEFAULT_INTERVAL: int := 1_000_000_000
  const DEFAULT_STEPS: int := 10

  /** What a wait comes to: whether to stop, and how long it took; a cancelled wait stops with an error. */
  datatype Waited = Delayed(time: int) | Stopped | Cancelled

  class ExponentialBackoff {
    const steps: int
    var retries: int
    var nextDelay: int
    var done: bool
    ghost const initial: int

    ghost predicate Valid()
      reads this
    {
      && 0 < initial <= MAX_INT64
      && 0 <= retries <= steps
      && nextDelay == Delay(initial, retries)
    }

    constructor (interval: int, limit: int)
      requires interval <= MAX_INT64
      ensures Valid() && retries == 0 && !done
      ensures initial == (if interval <= 0 then 1_000_000_000 else interval)
      ensures steps == (if limit <= 0 then 10 else limit)
    {
      initial := if interval <= 0 then DEFAULT_INTERVAL else interval;
      steps := if limit <= 0 then DEFAULT_STEPS else limit;
      nextDelay := if interval <= 0 then DEFAULT_INTERVAL else interval;
      retries := 0;
      done := false;
    }

    /** Waits for the next delay, unless the retries are used up or the wait is cancelled. */
    method Wait(cancelled: bool) returns (w: Waited)
      requires Valid()
      modifies this
      ensures Valid()
      ensures old(retries) == steps ==> w == Stopped && done && retries == steps
      ensures old(retries) < steps && cancelled ==> w == Cancelled && retries == old(retries) && done == old(done)
      ensures old(retries) < steps && !cancelled ==>
                w == Delayed(Delay(initial, old(retries))) && retries == old(retries) + 1 && done == old(done)
    {
      if retries >= steps {
        done := true;
        return Stopped;
      }
      if cancelled {
        return Cancelled;
      }
      w := Delayed(nextDelay);
      if nextDelay < HALF {
        nextDelay := Wrap64(nextDelay * 2);
      }
      retries := retries + 1;
    }

    /** The delay of a timer that is armed, or none when the retries are used up. */
    method Next() returns (w: Waited)
      requires Valid()
      modifies this
      ensures Valid()
      ensures old(retries) == steps ==> w == Stopped && done && retries == steps
      ensures old(retries) < steps ==>
                w == Delayed(Delay(initial, old(retries))) && retries == old(retries) + 1 && done == old(done)
    {
      if retries >= steps {
        done := true;
        return Stopped;
      }
      var delay := nextDelay;
      if nextDelay < HALF {
        nextDelay := Wrap64(nextDelay * 2);
      }
      retries := retries + 1;
      w := Delayed(delay);
    }
  }

  /** A client that retries until the backoff says to stop waits for the total of its delays, in as many waits as
      there are steps. */
  method RetryUntilDone(eb: ExponentialBackoff) returns (waited: int)
    requires eb.Valid() && eb.retries == 0
    modifies eb
    ensures eb.Valid() && eb.done && eb.retries == eb.steps
    ensures waited == TotalDelay(eb.initial, eb.steps)
  {
    waited := 0;
    while true
      invariant eb.Valid()
      invariant waited == TotalDelay(eb.initial, eb.retries)
      decreases eb.steps - eb.retries
    {
      var w := eb.Wait(false);
      if w.Stopped? {
        return;
      }
      waited := waited + w.time;
    }
  }
}
