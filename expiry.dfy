/**
 The per-user decision of `GoogleNotifier.notify`: how many whole days have
 passed since the last password change, how many of the fixed 90 days of
 validity remain, and whether that calls for an "expired" message, a
 warning, or nothing.
 */
module Expiry {

  /** Days a password stays valid; written as the literal 90 in the source. */
  const PasswordDays: int := 90

  /** Timestamps carry microseconds, as the event time format does. */
  const MicrosPerDay: int := 86_400_000_000

  /**
   Whole days from `ts` to `now`, rounded down as Python's `timedelta.days`
   does (so a change in the future gives a negative count).
   */
  function DaysElapsed(now: int, ts: int): (d: int)
    ensures d * MicrosPerDay <= now - ts < d * MicrosPerDay + MicrosPerDay
  {
    (now - ts) / MicrosPerDay
  }

  datatype Status = Expired | Warning | Silent

  /** A decision: what to send and the remaining day count it is based on. */
  datatype Verdict = Verdict(status: Status, days: int)

  /**
   The decision for a user whose last change was at `ts`: EXPIRED once the
   remaining day count is negative, else a WARNING while it is below the
   threshold, else no message.
   */
  function Classify(now: int, ts: int, threshold: int): (v: Verdict)
    ensures v.days + DaysElapsed(now, ts) == PasswordDays
    ensures v.status == Expired <==> v.days < 0
    ensures v.status == Warning <==> 0 <= v.days < threshold
    ensures v.status == Silent <==> 0 <= v.days && threshold <= v.days
  {
    var remaining := PasswordDays - DaysElapsed(now, ts);
    if remaining < 0 then Verdict(Expired, remaining)
    else if remaining < threshold then Verdict(Warning, remaining)
    else Verdict(Silent, remaining)
  }

  /** The elapsed day count is the unique `k` whose day contains `now - ts`. */
  lemma DaysElapsedUnique(now: int, ts: int, k: int)
    requires k * MicrosPerDay <= now - ts < k * MicrosPerDay + MicrosPerDay
    ensures DaysElapsed(now, ts) == k
  {
  }

  /** A user `k` whole days past the last change has `90 - k` days left. */
  lemma ClassifyAfterDays(now: int, ts: int, threshold: int, k: int)
    requires k * MicrosPerDay <= now - ts < k * MicrosPerDay + MicrosPerDay
    ensures Classify(now, ts, threshold).days == PasswordDays - k
  {
  }

  /**
   The boundaries at the sample threshold of 10 days: 79 and 80 days after
   the change nothing is sent, 81 days after it a warning of 9 days, 90 days
   after it a warning of 0 days (not yet expired), 91 days after it EXPIRED.
   Any point within the day counts the same.
   */
  lemma BoundaryTable(ts: int, offset: int)
    requires 0 <= offset < MicrosPerDay
    ensures Classify(ts + 79 * MicrosPerDay + offset, ts, 10) == Verdict(Silent, 11)
    ensures Classify(ts + 80 * MicrosPerDay + offset, ts, 10) == Verdict(Silent, 10)
    ensures Classify(ts + 81 * MicrosPerDay + offset, ts, 10) == Verdict(Warning, 9)
    ensures Classify(ts + 90 * MicrosPerDay + offset, ts, 10) == Verdict(Warning, 0)
    ensures Classify(ts + 91 * MicrosPerDay + offset, ts, 10) == Verdict(Expired, -1)
  {
  }

  /** As the clock advances the remaining day count never grows. */
  lemma DaysElapsedMonotone(now1: int, now2: int, ts: int)
    requires now1 <= now2
    ensures DaysElapsed(now1, ts) <= DaysElapsed(now2, ts)
  {
  }

  /** For a fixed change time, a later clock reading never turns Expired back into a warning or no message. */
  lemma ExpiredStaysExpired(now1: int, now2: int, ts: int, threshold: int)
    requires now1 <= now2
    requires Classify(now1, ts, threshold).status == Expired
    ensures Classify(now2, ts, threshold).status == Expired
  {
  }
}
