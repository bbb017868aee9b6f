/**
 * The expiry rule of the token store.
 *
 * A timestamp is a naive local date-time, written here as the number of
 * microseconds since midnight at the start of 0001-01-01, the earliest
 * naive date-time (microseconds are the resolution of the timestamps the
 * store writes and reads back). Because the epoch is a midnight, whole days
 * since the epoch are calendar days. A token is valid for a fixed window of
 * thirty days after its activation.
 */
module Clock {

  const MicrosPerSecond: int := 1_000_000
  const MicrosPerDay: int := 86_400 * MicrosPerSecond

  /** The fixed validity window, in whole days and in microseconds. */
  const ValidityDays: int := 30
  const Validity: int := ValidityDays * MicrosPerDay


  /**
   * The whole-day part of a time difference, as a time-delta reports it:
   * the seconds part is kept in [0, one day), so the day count rounds
   * toward minus infinity.
   */
  function WholeDays(delta: int): (d: int)
    ensures d * MicrosPerDay <= delta < (d + 1) * MicrosPerDay
  {
    delta / MicrosPerDay
  }

  /** Whole days left before a token activated at `activation` expires. */
  function RemainingDays(activation: int, now: int): (d: int)
    ensures d * MicrosPerDay <= ExpirationOf(activation) - now < (d + 1) * MicrosPerDay
  {
    WholeDays(ExpirationOf(activation) - now)
  }

  /**
   * The moment a token activated at `activation` stops being valid: exactly
   * thirty whole days later, with no part-day left over.
   */
  function ExpirationOf(activation: int): (e: int)
    ensures WholeDays(e - activation) == ValidityDays
    ensures (e - activation) % MicrosPerDay == 0
  {
    activation + Validity
  }

  /**
   * A token has expired once the clock has reached its expiration moment,
   * that is once the whole window has elapsed since activation. An expired
   * token has no day left; one still valid has a non-negative count.
   */
  function IsExpired(activation: int, now: int): (expired: bool)
    ensures expired <==> now - activation >= Validity
    ensures expired ==> RemainingDays(activation, now) <= 0
    ensures !expired ==> RemainingDays(activation, now) >= 0
  {
    now >= ExpirationOf(activation)
  }

  /** The calendar day (whole days since the midnight epoch) a timestamp falls on. */
  function CalendarDay(t: int): (d: int)
    ensures d * MicrosPerDay <= t < (d + 1) * MicrosPerDay
  {
    WholeDays(t)
  }

  /** At the moment of activation the full window is left. */
  lemma RemainingAtActivation(activation: int)
    ensures RemainingDays(activation, activation) == ValidityDays
  {
  }

  /**
   * Any later instant within the first day already reports one day less:
   * the count of a part-day rounds down.
   */
  lemma RemainingJustAfterActivation(activation: int, now: int)
    requires activation < now <= activation + MicrosPerDay
    ensures RemainingDays(activation, now) == ValidityDays - 1
  {
  }

  /**
   * The full window is reported exactly for instants up to the activation
   * and less than a day before it.
   */
  lemma FullWindowExactly(activation: int, now: int)
    ensures RemainingDays(activation, now) == ValidityDays <==> activation - MicrosPerDay < now <= activation
  {
  }

  /** After exactly `k` whole days, `ValidityDays - k` days remain. */
  lemma RemainingAfterWholeDays(activation: int, k: int)
    ensures RemainingDays(activation, activation + k * MicrosPerDay) == ValidityDays - k
  {
  }

  /** The count of remaining days never grows as the clock moves forward. */
  lemma RemainingMonotone(activation: int, earlier: int, later: int)
    requires earlier <= later
    ensures RemainingDays(activation, later) <= RemainingDays(activation, earlier)
  {
  }

  /**
   * The remaining-day count turns negative exactly once the expiration
   * moment has passed. At the expiration moment itself the count is still 0
   * while the expiry test already holds, so the user report shows 0 days
   * for a token the sweep reports as expired.
   */
  lemma ExpiredAgreesWithRemaining(activation: int, now: int)
    ensures RemainingDays(activation, now) < 0 <==> now > ExpirationOf(activation)
    ensures now == ExpirationOf(activation) ==> RemainingDays(activation, now) == 0 && IsExpired(activation, now)
  {
  }
}
