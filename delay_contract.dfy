/**
 * The tolerance contract documented on `DelayMessage`, stated of the
 * dispatch decision. "Received" is the clock reading `now`; the process time
 * is `ProcessTime(msg, now)`; lateness is the difference of the two. The
 * documented cases hold for a tolerance that is not negative (and, where
 * the negation's wrap keeps the bound in the past, for `MinInt32`); the
 * last two lemmas give what the code does for a negative one.
 */
module DelayContract {
  import opened Go
  import opened GoTime
  import opened Message
  import opened Dispatch

  /** Received before its process time, with a non-negative tolerance or `MinInt32`: enqueued for that time. */
  lemma EarlyIsEnqueued(msg: DelayMessage, now: Instant)
    requires now > ZeroTime && (msg.toleranceSecond >= 0 || msg.toleranceSecond == MinInt32)
    requires now < ProcessTime(msg, now)
    ensures Decide(msg, now) == Delayed(ProcessTime(msg, now))
  {
    DecisionBoundaries(msg, now);
  }

  /** Received later than its process time by more than the tolerance: ignored. */
  lemma LateBeyondToleranceIsIgnored(msg: DelayMessage, now: Instant)
    requires now > ZeroTime && msg.toleranceSecond != MinInt32
    requires now - ProcessTime(msg, now) > msg.toleranceSecond as int * NanosPerSecond
    ensures Decide(msg, now) == Drop
  {
    DecisionBoundaries(msg, now);
  }

  /** Received at or after its process time, late by at most the tolerance: processed at once. */
  lemma LateWithinToleranceIsImmediate(msg: DelayMessage, now: Instant)
    requires now > ZeroTime
    requires 0 <= now - ProcessTime(msg, now) <= msg.toleranceSecond as int * NanosPerSecond
    ensures Decide(msg, now) == Immediate
  {
    DecisionBoundaries(msg, now);
  }

  /** With the default tolerance of 0, anything late is ignored and anything exactly on time is processed at once. */
  lemma DefaultTolerance(msg: DelayMessage, now: Instant)
    requires now > ZeroTime && msg.toleranceSecond == 0
    ensures ProcessTime(msg, now) < now ==> Decide(msg, now) == Drop
    ensures ProcessTime(msg, now) == now ==> Decide(msg, now) == Immediate
  {
    DecisionBoundaries(msg, now);
  }

  /**
   * With neither timing field set, an envelope is processed at once, unless
   * its tolerance is negative: then it is dropped, except for `MinInt32`,
   * whose negation wraps back to a bound in the past.
   */
  lemma NoTimingMeansNow(msg: DelayMessage, now: Instant)
    requires now > ZeroTime && msg.processIn <= 0 && msg.processAt <= 0
    ensures msg.toleranceSecond >= 0 || msg.toleranceSecond == MinInt32 ==> Decide(msg, now) == Immediate
    ensures MinInt32 < msg.toleranceSecond < 0 ==> Decide(msg, now) == Drop
  {
    DecisionBoundaries(msg, now);
  }

  /**
   * A negative tolerance moves the bound into the future: an envelope whose
   * process time is less than that many seconds ahead is dropped, not
   * enqueued as the documentation says.
   */
  lemma NegativeToleranceDropsEarly(msg: DelayMessage, now: Instant)
    requires now > ZeroTime && MinInt32 < msg.toleranceSecond < 0
    requires now < ProcessTime(msg, now) < now - msg.toleranceSecond as int * NanosPerSecond
    ensures Decide(msg, now) == Drop
  {
    DecisionBoundaries(msg, now);
  }

  /**
   * The tolerance is negated in int32: the most negative value stays negative
   * once negated, so it acts as a tolerance of 2^31 seconds. The bound is
   * always within the int32 range of seconds from `now`.
   */
  lemma MinToleranceWraps(msg: DelayMessage, now: Instant)
    requires now > ZeroTime && msg.toleranceSecond == MinInt32
    ensures ToleranceBound(msg, now) == now - 0x8000_0000 * NanosPerSecond
    ensures 0 <= now - ProcessTime(msg, now) <= 0x8000_0000 * NanosPerSecond ==> Decide(msg, now) == Immediate
  {
    DecisionBoundaries(msg, now);
  }
}
