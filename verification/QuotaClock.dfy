/** The quota day: calendar days of UTC+7, numbered from the epoch, and the next moment they change. */
module QuotaClock {

  const HOUR_MS := 60 * 60 * 1000
  const DAY_MS := 24 * HOUR_MS
  const UTC7_MS := 7 * HOUR_MS

  function UsageDay(nowMs: int): int { (nowMs + UTC7_MS) / DAY_MS }

  /** Midnight after the current UTC+7 day, brought back to UTC. */
  function NextResetAt(nowMs: int): int {
    var utc7Now := nowMs + UTC7_MS;
    var nextMidnightUtc7 := (utc7Now / DAY_MS + 1) * DAY_MS;
    nextMidnightUtc7 - UTC7_MS
  }

  /** The usage day is the calendar day seven hours ahead of UTC, and it ends at the reset. */
  lemma DayIsSevenHoursAhead(nowMs: int)
    ensures UsageDay(nowMs) * 86_400_000 <= nowMs + 25_200_000 < (UsageDay(nowMs) + 1) * 86_400_000
    ensures NextResetAt(nowMs) + 25_200_000 == (UsageDay(nowMs) + 1) * 86_400_000
  {
  }

  /** The reset is the first later instant with another usage day, at most a day away. */
  lemma NextResetIsFirstChange(nowMs: int, later: int)
    requires nowMs <= later
    ensures UsageDay(later) != UsageDay(nowMs) <==> NextResetAt(nowMs) <= later
    ensures UsageDay(NextResetAt(nowMs)) == UsageDay(nowMs) + 1
    ensures nowMs < NextResetAt(nowMs) <= nowMs + DAY_MS
  {
  }
}
