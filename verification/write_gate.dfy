/** Acquiring the in-process write gate: a compare-and-swap retried with bounded
    exponential backoff, against an arbitrary clock and scheduler. */
module WriteGate {
  import opened IndexKey

  const U64_MAX: nat := TWO64 - 1
  const MAX_BACKOFF: nat := 100
  const SPARE_ATTEMPTS: nat := 64

  /** What the loop cannot choose: whether the k-th attempt (from 1) wins - it may
      also fail for no reason - and what the clock shows at the start and after
      each failed attempt. */
  datatype Env = Env(wins: nat -> bool, start: uint64, now: nat -> uint64)

  datatype Phase =
    | Polling(iters: uint64, backoff: nat, slept: nat)
    | Won(attempts: nat)
    | Deadline(attempts: nat, slept: nat)
    | CapReached(attempts: nat)

  function SatAdd(a: nat, b: nat): (r: uint64) {
    if a + b > U64_MAX then U64_MAX else a + b
  }

  function SatSub(a: nat, b: nat): nat {
    if a < b then 0 else a - b
  }

  /** A timeout of any length in milliseconds, as the 64-bit count compared with. */
  function Millis(timeout: nat): uint64 {
    if timeout > U64_MAX then U64_MAX else timeout
  }

  function MaxIters(timeout: nat): uint64 {
    SatAdd(Millis(timeout), SPARE_ATTEMPTS)
  }

  function Iterate(env: Env, timeout: nat, attempt: nat, iters: uint64, backoff: nat, slept: nat): (p: Phase)
    requires attempt > 0
  {
    var next := SatAdd(iters, 1);
    if next > MaxIters(timeout) then CapReached(attempt - 1)
    else if env.wins(attempt) then Won(attempt)
    else if SatSub(env.now(attempt), env.start) >= Millis(timeout) then Deadline(attempt, slept)
    else Polling(next, if backoff * 2 > MAX_BACKOFF then MAX_BACKOFF else backoff * 2, slept + backoff)
  }

  /** Where the loop stands after n iterations, or where it ended before. */
  function Run(env: Env, timeout: nat, n: nat): (p: Phase)
    decreases n
  {
    if n == 0 then Polling(0, 1, 0) else
    var p := Run(env, timeout, n - 1);
    if p.Polling? then Iterate(env, timeout, n, p.iters, p.backoff, p.slept) else p
  }

  lemma {:induction false} RunStays(env: Env, timeout: nat, n: nat, m: nat)
    requires n <= m && !Run(env, timeout, n).Polling?
    ensures Run(env, timeout, m) == Run(env, timeout, n)
    decreases m
  {
    if n < m {
      RunStays(env, timeout, n, m - 1);
    }
  }

  /** The loop itself, followed for at most `horizon` iterations. */
  method Acquire(env: Env, timeout: nat, horizon: nat) returns (p: Phase)
    ensures p == Run(env, timeout, horizon)
  {
    var backoff, iters, slept, attempt := 1, 0, 0, 0;
    var maxIters := MaxIters(timeout);
    while attempt < horizon
      invariant attempt <= horizon && 0 <= iters <= U64_MAX && 0 <= backoff && 0 <= slept
      invariant Run(env, timeout, attempt) == Polling(iters, backoff, slept)
    {
      attempt := attempt + 1;
      iters := SatAdd(iters, 1);
      if iters > maxIters {
        RunStays(env, timeout, attempt, horizon);
        return CapReached(attempt - 1);
      }
      if env.wins(attempt) {
        RunStays(env, timeout, attempt, horizon);
        return Won(attempt);
      }
      if SatSub(env.now(attempt), env.start) >= Millis(timeout) {
        RunStays(env, timeout, attempt, horizon);
        return Deadline(attempt, slept);
      }
      slept := slept + backoff;
      backoff := if backoff * 2 > MAX_BACKOFF then MAX_BACKOFF else backoff * 2;
    }
    return Polling(iters, backoff, slept);
  }

  // ---- The schedule ----

  function Pow2(k: nat): (p: nat)
    ensures p > 0
  {
    if k == 0 then 1 else 2 * Pow2(k - 1)
  }

  /** The k-th wait, from 0. */
  function Backoff(k: nat): (b: nat)
    ensures 1 <= b <= MAX_BACKOFF
  {
    if Pow2(k) > MAX_BACKOFF then MAX_BACKOFF else Pow2(k)
  }

  function TotalWait(k: nat): (w: nat)
    ensures w >= k
  {
    if k == 0 then 0 else TotalWait(k - 1) + Backoff(k - 1)
  }

  /** While the loop polls it has waited the first n backoffs and counted n
      attempts, up to where the counter saturates. */
  lemma {:induction false} PollingState(env: Env, timeout: nat, n: nat)
    requires Run(env, timeout, n).Polling?
    ensures var p := Run(env, timeout, n);
            p.iters == Millis(n) && p.backoff == Backoff(n) && p.slept == TotalWait(n)
    ensures Millis(n) <= MaxIters(timeout)
    decreases n
  {
    if n > 0 {
      PollingState(env, timeout, n - 1);
    }
  }

  /** On any clock and with any scheduling the number of attempts is at most the
      timeout plus 64, and the loop has ended one iteration later, provided that
      sum does not reach the largest 64-bit count. */
  lemma AttemptsBounded(env: Env, timeout: nat, n: nat)
    requires timeout + SPARE_ATTEMPTS < U64_MAX && n > timeout + SPARE_ATTEMPTS
    ensures match Run(env, timeout, n)
            case Polling(_, _, _) => false
            case Won(a) => a <= timeout + SPARE_ATTEMPTS
            case Deadline(a, _) => a <= timeout + SPARE_ATTEMPTS
            case CapReached(a) => a == timeout + SPARE_ATTEMPTS
  {
    var cap := timeout + SPARE_ATTEMPTS;
    if Run(env, timeout, cap + 1).Polling? {
      PollingState(env, timeout, cap + 1);
    }
    RunStays(env, timeout, cap + 1, n);
    EndsWithin(env, timeout, cap + 1);
  }

  // ---- How the loop ends ----

  /** The attempt cap, where the counter can reach it. */
  predicate Allowed(timeout: nat, attempt: nat) {
    attempt <= timeout + SPARE_ATTEMPTS || timeout + SPARE_ATTEMPTS >= U64_MAX
  }

  /** The clock read after the k-th attempt shows the timeout as passed. */
  predicate TimedOut(env: Env, timeout: nat, k: nat) {
    env.start + timeout <= env.now(k) || env.start + U64_MAX <= env.now(k) || timeout == 0
  }

  /** None of the first attempts wins, and no reading after one of them ends the loop. */
  ghost predicate NothingUpTo(env: Env, timeout: nat, n: nat) {
    forall k | 0 < k <= n :: !env.wins(k) && !TimedOut(env, timeout, k)
  }

  lemma NothingStep(env: Env, timeout: nat, n: nat)
    requires n > 0
    ensures NothingUpTo(env, timeout, n) <==>
              NothingUpTo(env, timeout, n - 1) && !env.wins(n) && !TimedOut(env, timeout, n)
  {}

  /** The loop still polls after n attempts when none of them ended it. */
  lemma {:induction false} PollsExactly(env: Env, timeout: nat, n: nat)
    ensures Run(env, timeout, n).Polling? <==> (n == 0 || Allowed(timeout, n)) && NothingUpTo(env, timeout, n)
    decreases n
  {
    if n > 0 {
      PollsExactly(env, timeout, n - 1);
      NothingStep(env, timeout, n);
      if Run(env, timeout, n - 1).Polling? { PollingState(env, timeout, n - 1); }
    }
  }

  /** The gate is won by the first attempt that wins, unless the cap or a clock reading
      has ended the loop before. */
  lemma {:induction false} WinsExactly(env: Env, timeout: nat, n: nat, a: nat)
    ensures Run(env, timeout, n) == Won(a) <==>
              0 < a <= n && Allowed(timeout, a) && NothingUpTo(env, timeout, a - 1) && env.wins(a)
    decreases n
  {
    if n > 0 {
      WinsExactly(env, timeout, n - 1, a);
      PollsExactly(env, timeout, n - 1);
      if Run(env, timeout, n - 1).Polling? { PollingState(env, timeout, n - 1); }
    }
  }

  /** A free gate is taken at the first attempt, whatever the timeout. */
  lemma FreeGateIsTaken(env: Env, timeout: nat, n: nat)
    requires n > 0 && env.wins(1)
    ensures Run(env, timeout, n) == Won(1)
  {
    WinsExactly(env, timeout, n, 1);
  }

  /** The deadline ends the loop at the first failed attempt after which the clock shows
      the timeout as passed. */
  lemma {:induction false} DeadlineExactly(env: Env, timeout: nat, n: nat, a: nat)
    ensures (Run(env, timeout, n).Deadline? && Run(env, timeout, n).attempts == a) <==>
              && 0 < a <= n && Allowed(timeout, a) && NothingUpTo(env, timeout, a - 1)
              && !env.wins(a) && TimedOut(env, timeout, a)
    decreases n
  {
    if n > 0 {
      DeadlineExactly(env, timeout, n - 1, a);
      PollsExactly(env, timeout, n - 1);
      if Run(env, timeout, n - 1).Polling? { PollingState(env, timeout, n - 1); }
    }
  }

  /** The cap ends it after timeout plus 64 attempts of which none came to anything. */
  lemma {:induction false} CapExactly(env: Env, timeout: nat, n: nat, a: nat)
    ensures Run(env, timeout, n) == CapReached(a) <==>
              a < n && a == timeout + SPARE_ATTEMPTS < U64_MAX && NothingUpTo(env, timeout, a)
    decreases n
  {
    if n > 0 {
      CapExactly(env, timeout, n - 1, a);
      PollsExactly(env, timeout, n - 1);
      if Run(env, timeout, n - 1).Polling? { PollingState(env, timeout, n - 1); }
    }
  }

  /** An ending reports the attempts made before it. */
  lemma {:induction false} EndsWithin(env: Env, timeout: nat, n: nat)
    ensures match Run(env, timeout, n)
            case Polling(_, _, _) => true
            case Won(a) => 0 < a <= n && env.wins(a) && Millis(a) <= MaxIters(timeout)
            case Deadline(a, s) =>
              && 0 < a <= n && Millis(a) <= MaxIters(timeout)
              && SatSub(env.now(a), env.start) >= Millis(timeout) && s == TotalWait(a - 1)
            case CapReached(a) => a < n && a == MaxIters(timeout)
    decreases n
  {
    if n > 0 {
      EndsWithin(env, timeout, n - 1);
      if Run(env, timeout, n - 1).Polling? {
        PollingState(env, timeout, n - 1);
      }
    }
  }

  /** Past that sum the cap is out of the counter's reach: with a stopped clock and
      no luck the loop never ends. */
  lemma {:induction false} SaturatedCapNeverFires(timeout: nat, n: nat)
    requires timeout + SPARE_ATTEMPTS >= U64_MAX
    ensures Run(Env(_ => false, 0, _ => 0), timeout, n).Polling?
    decreases n
  {
    if n > 0 {
      SaturatedCapNeverFires(timeout, n - 1);
    }
  }

  ghost predicate Ends(env: Env, timeout: nat) {
    exists n :: !Run(env, timeout, n).Polling?
  }

  /** Every run ends, whatever the clock and the scheduler do, exactly when the
      timeout is short enough for the cap to be counted to. */
  lemma EndsOnEveryClock(timeout: nat)
    ensures (forall env :: Ends(env, timeout)) <==> timeout + SPARE_ATTEMPTS < U64_MAX
  {
    if timeout + SPARE_ATTEMPTS < U64_MAX {
      forall env ensures Ends(env, timeout) {
        AttemptsBounded(env, timeout, timeout + SPARE_ATTEMPTS + 1);
      }
    } else {
      var stuck := Env(_ => false, 0, _ => 0);
      assert !Ends(stuck, timeout) by {
        forall n ensures Run(stuck, timeout, n).Polling? {
          SaturatedCapNeverFires(timeout, n);
        }
      }
    }
  }

  // ---- On an exact clock ----

  /** Between the start and the reading after the k-th attempt, exactly the k - 1
      waits have passed. */
  ghost predicate ExactClock(env: Env) {
    forall k | k > 0 :: SatSub(env.now(k), env.start) == TotalWait(k - 1)
  }

  lemma ExactClockStep(env: Env, timeout: nat, n: nat)
    requires ExactClock(env) && n > 0 && Run(env, timeout, n - 1).Polling?
    requires n - 1 <= Millis(timeout) && TotalWait(n - 1) < Millis(timeout) + MAX_BACKOFF
    ensures !Run(env, timeout, n).CapReached?
    ensures Run(env, timeout, n).Deadline? ==>
              Millis(timeout) <= TotalWait(n - 1) && Run(env, timeout, n).slept == TotalWait(n - 1)
    ensures Run(env, timeout, n).Polling? ==>
              TotalWait(n - 1) < Millis(timeout) && Run(env, timeout, n).slept == TotalWait(n)
  {
    PollingState(env, timeout, n - 1);
    assert SatSub(env.now(n), env.start) == TotalWait(n - 1);
  }

  /** The cap is never what ends the loop; Busy means the timeout has passed, after
      waiting less than the timeout and one longest backoff. */
  lemma {:induction false} ExactClockEnding(env: Env, timeout: nat, n: nat)
    requires ExactClock(env)
    ensures !Run(env, timeout, n).CapReached?
    ensures Run(env, timeout, n).Deadline? ==>
              Millis(timeout) <= Run(env, timeout, n).slept < Millis(timeout) + MAX_BACKOFF
    ensures Run(env, timeout, n).Polling? ==>
              Run(env, timeout, n).slept == TotalWait(n) < Millis(timeout) + MAX_BACKOFF && n <= Millis(timeout)
    decreases n
  {
    if n > 0 {
      ExactClockEnding(env, timeout, n - 1);
      if Run(env, timeout, n - 1).Polling? {
        ExactClockStep(env, timeout, n);
      }
    }
  }
}
