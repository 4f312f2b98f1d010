/**
 * WaitUtils.retryUntilTrue: poll a condition at most `attempts` times,
 * stop at the first `true`, swallow exceptions thrown by the condition,
 * and sleep a fixed delay after every `false`.
 *
 * The condition is a stateful callback in the source; here it is the
 * script of its answers: `condition(n)` is what the n-th call does
 * (counting from 1). Sleeping is an event in the returned trace.
 */
module WaitUtils {

  /**
   * What one call of `condition.check()` does: return true, return false,
   * throw an `Exception` (which the loop catches), or throw an `Error` such
   * as `AssertionError` (which `catch (Exception e)` does not catch, so it
   * leaves the method at once).
   */
  datatype Check = True | False | Throws | Escapes

  /** How a run ends: a returned boolean, or an `Error` propagated to the caller. */
  datatype RunEnd = Returned(result: bool) | Propagated

  /** Observable events of one retry run, in order. */
  datatype Event = Checked(attempt: int, outcome: Check) | Slept(millis: int)

  /**
   * The events that follow a check returning false: `Thread.sleep(delayMs)`.
   * A negative delay makes `Thread.sleep` throw `IllegalArgumentException`,
   * which the same catch swallows, so no sleep happens.
   */
  function SleepAfterFalse(delayMs: int): seq<Event>
  {
    if delayMs >= 0 then [Slept(delayMs)] else []
  }

  /** The events of one attempt that neither returns true nor ends the run. */
  function FailedAttempt(i: int, outcome: Check, delayMs: int): seq<Event>
  {
    [Checked(i, outcome)] + (if outcome == False then SleepAfterFalse(delayMs) else [])
  }

  /** The run from attempt `i` on: how it ends and the events it produces. */
  function RetryFrom(i: int, attempts: int, delayMs: int, condition: nat -> Check): (RunEnd, seq<Event>)
    requires i >= 1
    decreases if attempts >= i then attempts - i + 1 else 0
  {
    if i > attempts then (Returned(false), [])
    else if condition(i) == True then (Returned(true), [Checked(i, True)])
    else if condition(i) == Escapes then (Propagated, [Checked(i, Escapes)])
    else
      var rest := RetryFrom(i + 1, attempts, delayMs, condition);
      (rest.0, FailedAttempt(i, condition(i), delayMs) + rest.1)
  }

  /** The whole run, as the source starts it with `i = 1`. */
  function Retry(attempts: int, delayMs: int, condition: nat -> Check): (RunEnd, seq<Event>)
  {
    RetryFrom(1, attempts, delayMs, condition)
  }

  /** The attempt numbers of the checks in a trace, in order. */
  function CheckedAttempts(trace: seq<Event>): seq<int>
  {
    if trace == [] then []
    else if trace[0].Checked? then [trace[0].attempt] + CheckedAttempts(trace[1..])
    else CheckedAttempts(trace[1..])
  }

  /** The number of sleeps in a trace. */
  function SleepCount(trace: seq<Event>): nat
  {
    if trace == [] then 0
    else (if trace[0].Slept? then 1 else 0) + SleepCount(trace[1..])
  }

  /** The integers lo, lo + 1, ..., hi - 1. */
  function Range(lo: int, hi: int): seq<int>
    decreases if hi > lo then hi - lo else 0
  {
    if lo >= hi then [] else [lo] + Range(lo + 1, hi)
  }

  /** Every check among attempts lo..hi-1 returns false or throws an `Exception`. */
  ghost predicate Undecided(condition: nat -> Check, lo: nat, hi: int)
  {
    forall j: nat :: lo <= j < hi ==> condition(j) == False || condition(j) == Throws
  }

  /** Attempt k, within lo..hi, is the first whose check returns true or throws an `Error`. */
  ghost predicate FirstDecisive(condition: nat -> Check, lo: nat, hi: int, k: nat)
  {
    lo <= k <= hi && (condition(k) == True || condition(k) == Escapes) && Undecided(condition, lo, k)
  }

  /**
   * A sleep of `delayMs` comes right after each false check and nowhere
   * else, and no false check is the last event of the trace.
   */
  ghost predicate SleepsExactlyAfterFalse(trace: seq<Event>, delayMs: int)
  {
    forall p :: 0 <= p < |trace| ==>
      (trace[p].Slept? <==> (p > 0 && trace[p - 1].Checked? && trace[p - 1].outcome == False)) &&
      (trace[p].Slept? ==> trace[p].millis == delayMs) &&
      (trace[p].Checked? && trace[p].outcome == False ==> p + 1 < |trace|)
  }

  /**
   * The loop of the source, with the counter `i`, the early return and the
   * `Error` that escapes the catch. Proved equal to the specification
   * `Retry`; what that promises is proved in the lemmas below.
   */
  method RetryUntilTrue(attempts: int, delayMs: int, condition: nat -> Check)
    returns (end: RunEnd, trace: seq<Event>)
    ensures (end, trace) == Retry(attempts, delayMs, condition)
  {
    trace := [];
    var i := 1;
    while i <= attempts
      invariant i >= 1
      invariant attempts >= 0 ==> i <= attempts + 1
      invariant Retry(attempts, delayMs, condition).0 == RetryFrom(i, attempts, delayMs, condition).0
      invariant Retry(attempts, delayMs, condition).1 == trace + RetryFrom(i, attempts, delayMs, condition).1
    {
      var outcome := condition(i);
      if outcome == True {
        trace := trace + [Checked(i, True)];
        return Returned(true), trace;
      }
      if outcome == Escapes {
        // an Error is not an Exception: the catch lets it through
        trace := trace + [Checked(i, Escapes)];
        return Propagated, trace;
      }
      // a false check is followed by the sleep; a throwing one is caught
      var events := FailedAttempt(i, outcome, delayMs);
      ghost var rest := RetryFrom(i + 1, attempts, delayMs, condition).1;
      assert trace + (events + rest) == (trace + events) + rest;
      trace := trace + events;
      i := i + 1;
    }
    end := Returned(false);
    assert trace + [] == trace;
  }

  /** Skipping a check that returns false or throws an `Exception` keeps a range undecided. */
  lemma UndecidedStep(condition: nat -> Check, i: nat, k: nat)
    requires condition(i) == False || condition(i) == Throws
    requires i < k
    ensures Undecided(condition, i, k) <==> Undecided(condition, i + 1, k)
  {
  }

  /**
   * The run returns true iff, among checks i..attempts, the first one that
   * returns true or throws an `Error` returns true; the `Error` propagates
   * iff that first one throws it; otherwise the run returns false.
   */
  lemma {:induction false} RetryEndsAtFirstDecisive(i: nat, attempts: int, delayMs: int, condition: nat -> Check)
    requires i >= 1
    ensures var r := RetryFrom(i, attempts, delayMs, condition).0;
      (r == Returned(true) <==> exists k: nat :: FirstDecisive(condition, i, attempts, k) && condition(k) == True) &&
      (r == Propagated <==> exists k: nat :: FirstDecisive(condition, i, attempts, k) && condition(k) == Escapes)
    decreases if attempts >= i then attempts - i + 1 else 0
  {
    var r := RetryFrom(i, attempts, delayMs, condition).0;
    if i <= attempts {
      if condition(i) == True || condition(i) == Escapes {
        assert FirstDecisive(condition, i, attempts, i);
        forall k: nat | FirstDecisive(condition, i, attempts, k)
          ensures k == i
        {
        }
      } else {
        RetryEndsAtFirstDecisive(i + 1, attempts, delayMs, condition);
        forall k: nat | i < k
          ensures FirstDecisive(condition, i, attempts, k) <==> FirstDecisive(condition, i + 1, attempts, k)
        {
          UndecidedStep(condition, i, k);
        }
        forall k: nat | FirstDecisive(condition, i, attempts, k)
          ensures k != i
        {
        }
      }
    }
  }

  /**
   * A run that does not return false checks attempts i, i+1, ..., k in
   * order, where k is the first attempt whose check returns true or throws
   * an `Error`, and ends with that check: nothing is checked after it.
   */
  lemma {:induction false} RetryStopsAtFirstDecisive(i: nat, attempts: int, delayMs: int, condition: nat -> Check)
    requires i >= 1
    requires RetryFrom(i, attempts, delayMs, condition).0 != Returned(false)
    ensures var t := RetryFrom(i, attempts, delayMs, condition).1;
      exists k: nat :: FirstDecisive(condition, i, attempts, k) &&
        CheckedAttempts(t) == Range(i, k + 1) &&
        t[|t| - 1] == Checked(k, condition(k))
    decreases if attempts >= i then attempts - i + 1 else 0
  {
    var t := RetryFrom(i, attempts, delayMs, condition).1;
    if condition(i) == True || condition(i) == Escapes {
      assert Range(i + 1, i + 1) == [];
      assert CheckedAttempts(t) == [i] + CheckedAttempts([]);
      assert CheckedAttempts(t) == Range(i, i + 1);
      assert FirstDecisive(condition, i, attempts, i);
    } else {
      var rest := RetryFrom(i + 1, attempts, delayMs, condition);
      RetryStopsAtFirstDecisive(i + 1, attempts, delayMs, condition);
      var k: nat :| FirstDecisive(condition, i + 1, attempts, k) &&
        CheckedAttempts(rest.1) == Range(i + 1, k + 1) &&
        rest.1[|rest.1| - 1] == Checked(k, condition(k));
      UndecidedStep(condition, i, k);
      var head := FailedAttempt(i, condition(i), delayMs);
      CheckedAttemptsAppend(head, rest.1);
      FailedAttemptChecks(i, condition(i), delayMs);
      assert CheckedAttempts(t) == Range(i, k + 1);
      assert t[|t| - 1] == rest.1[|rest.1| - 1];
      assert FirstDecisive(condition, i, attempts, k);
    }
  }

  /**
   * A run in which every check returns false or throws an `Exception` makes
   * exactly max(attempts - i + 1, 0) checks, attempts i..attempts in order,
   * and returns false; in particular `attempts <= 0` makes no check at all.
   */
  lemma {:induction false} RetryExhausted(i: nat, attempts: int, delayMs: int, condition: nat -> Check)
    requires i >= 1
    requires Undecided(condition, i, attempts + 1)
    ensures var r := RetryFrom(i, attempts, delayMs, condition);
      r.0 == Returned(false) && CheckedAttempts(r.1) == Range(i, attempts + 1)
    decreases if attempts >= i then attempts - i + 1 else 0
  {
    if i <= attempts {
      assert condition(i) == False || condition(i) == Throws;
      RetryExhausted(i + 1, attempts, delayMs, condition);
      var rest := RetryFrom(i + 1, attempts, delayMs, condition);
      var head := FailedAttempt(i, condition(i), delayMs);
      CheckedAttemptsAppend(head, rest.1);
      FailedAttemptChecks(i, condition(i), delayMs);
    }
  }

  /** Every trace the run produces starts with a check, unless it is empty. */
  lemma {:induction false} RetryTraceStartsWithCheck(i: nat, attempts: int, delayMs: int, condition: nat -> Check)
    requires i >= 1
    ensures var t := RetryFrom(i, attempts, delayMs, condition).1;
      t == [] || t[0] == Checked(i, condition(i))
  {
  }

  /**
   * With a non-negative delay, a sleep of `delayMs` follows each check that
   * returns false (the last attempt included, so a false check never ends
   * the trace) and nothing else: a check that throws is not followed by a
   * sleep.
   */
  lemma {:induction false} RetrySleepsAfterEachFalse(i: nat, attempts: int, delayMs: int, condition: nat -> Check)
    requires i >= 1
    requires delayMs >= 0
    ensures SleepsExactlyAfterFalse(RetryFrom(i, attempts, delayMs, condition).1, delayMs)
    decreases if attempts >= i then attempts - i + 1 else 0
  {
    if i <= attempts && (condition(i) == False || condition(i) == Throws) {
      var rest := RetryFrom(i + 1, attempts, delayMs, condition).1;
      RetrySleepsAfterEachFalse(i + 1, attempts, delayMs, condition);
      RetryTraceStartsWithCheck(i + 1, attempts, delayMs, condition);
      var t := RetryFrom(i, attempts, delayMs, condition).1;
      var h := if condition(i) == False then 2 else 1;
      assert t == t[..h] + rest;
      forall p | 0 <= p < |t|
        ensures (t[p].Slept? <==> (p > 0 && t[p - 1].Checked? && t[p - 1].outcome == False)) &&
          (t[p].Slept? ==> t[p].millis == delayMs) &&
          (t[p].Checked? && t[p].outcome == False ==> p + 1 < |t|)
      {
        if p >= h {
          assert t[p] == rest[p - h];
          if p > h {
            assert t[p - 1] == rest[p - h - 1];
          }
        }
      }
    }
  }

  /** With a negative delay no sleep ever happens: `Thread.sleep` throws instead. */
  lemma {:induction false} RetryNegativeDelayNeverSleeps(i: nat, attempts: int, delayMs: int, condition: nat -> Check)
    requires i >= 1
    requires delayMs < 0
    ensures SleepCount(RetryFrom(i, attempts, delayMs, condition).1) == 0
    decreases if attempts >= i then attempts - i + 1 else 0
  {
    if i <= attempts && (condition(i) == False || condition(i) == Throws) {
      RetryNegativeDelayNeverSleeps(i + 1, attempts, delayMs, condition);
      var rest := RetryFrom(i + 1, attempts, delayMs, condition).1;
      var t := RetryFrom(i, attempts, delayMs, condition).1;
      assert t == [t[0]] + rest;
    }
  }

  /**
   * A condition that always returns false makes exactly max(attempts, 0)
   * checks and as many sleeps (not one fewer): the last failed attempt is
   * followed by a sleep too.
   */
  lemma {:induction false} RetryAlwaysFalse(i: nat, attempts: int, delayMs: int, condition: nat -> Check)
    requires i >= 1
    requires delayMs >= 0
    requires forall n: nat :: condition(n) == False
    ensures var r := RetryFrom(i, attempts, delayMs, condition);
      r.0 == Returned(false) &&
      |CheckedAttempts(r.1)| == SleepCount(r.1) == (if attempts >= i then attempts - i + 1 else 0)
    decreases if attempts >= i then attempts - i + 1 else 0
  {
    if i <= attempts {
      RetryAlwaysFalse(i + 1, attempts, delayMs, condition);
      var rest := RetryFrom(i + 1, attempts, delayMs, condition).1;
      var t := RetryFrom(i, attempts, delayMs, condition).1;
      assert t == [Checked(i, False), Slept(delayMs)] + rest;
      assert t[1..] == [Slept(delayMs)] + rest;
      assert t[1..][1..] == rest;
    }
  }

  lemma FailedAttemptChecks(i: int, outcome: Check, delayMs: int)
    ensures CheckedAttempts(FailedAttempt(i, outcome, delayMs)) == [i]
  {
    var e := FailedAttempt(i, outcome, delayMs);
    assert e[1..] == [] || e[1..] == [Slept(delayMs)];
    assert CheckedAttempts(e[1..]) == [];
  }

  lemma {:induction false} CheckedAttemptsAppend(a: seq<Event>, b: seq<Event>)
    ensures CheckedAttempts(a + b) == CheckedAttempts(a) + CheckedAttempts(b)
  {
    if a != [] {
      assert (a + b)[1..] == a[1..] + b;
      CheckedAttemptsAppend(a[1..], b);
    } else {
      assert a + b == b;
    }
  }

  // ----- The loop counter as written -----

  const MinInt32: int := -0x8000_0000
  const MaxInt32: int := 0x7FFF_FFFF

  /** Java's `int`. */
  newtype Int32 = x: int | MinInt32 <= x <= MaxInt32

  /** `i++` on a Java `int`: the sum taken modulo 2^32 in two's complement. */
  function JavaIncrement(i: Int32): (r: Int32)
    ensures r as int == MinInt32 + (i as int + 1 - MinInt32) % 0x1_0000_0000
  {
    if i == MaxInt32 as Int32 then MinInt32 as Int32 else i + 1
  }

  /** The value of the counter `i` after `n` turns of the loop, starting from `i = 1`. */
  function CounterAfter(n: nat): Int32
  {
    if n == 0 then 1 else JavaIncrement(CounterAfter(n - 1))
  }

  /** After n turns the counter is 1 + n taken modulo 2^32 in two's complement. */
  lemma {:induction false} CounterAfterWraps(n: nat)
    ensures CounterAfter(n) as int == MinInt32 + (n + 1 - MinInt32) % 0x1_0000_0000
  {
    if n > 0 {
      CounterAfterWraps(n - 1);
      SuccessorModulus(n - MinInt32);
    }
  }

  lemma SuccessorModulus(m: int)
    ensures (m % 0x1_0000_0000 + 1) % 0x1_0000_0000 == (m + 1) % 0x1_0000_0000
  {
    var q := m % 0x1_0000_0000;
    var d := m / 0x1_0000_0000;
    if q + 1 < 0x1_0000_0000 {
      assert m + 1 == d * 0x1_0000_0000 + (q + 1);
    } else {
      assert m + 1 == (d + 1) * 0x1_0000_0000 + 0;
    }
  }

  /**
   * With `attempts == Integer.MAX_VALUE`, a condition that never returns
   * true keeps the loop of the source running for ever: after any number of
   * turns the counter still passes the guard `i <= attempts`, and every
   * 2^32 turns it is back at the same value.
   */
  lemma JavaCounterNeverLeavesLoop(attempts: Int32, n: nat)
    requires attempts == MaxInt32 as Int32
    ensures CounterAfter(n) <= attempts
    ensures CounterAfter(n + 0x1_0000_0000) == CounterAfter(n)
  {
    CounterAfterWraps(n);
    CounterAfterWraps(n + 0x1_0000_0000);
    ShiftByModulus(n + 1 - MinInt32);
  }

  lemma ShiftByModulus(m: int)
    ensures (m + 0x1_0000_0000) % 0x1_0000_0000 == m % 0x1_0000_0000
  {
    var q := m % 0x1_0000_0000;
    var d := m / 0x1_0000_0000;
    assert m + 0x1_0000_0000 == (d + 1) * 0x1_0000_0000 + q;
  }
}
